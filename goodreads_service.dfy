/** The feed ingestor (src/services/GoodreadsService.ts): reading the saved
    feed URL, fetching the feed through the relay, and mapping the parsed
    `rss > channel > item` tree to book records through one fallback chain
    per field. The XML parser is not modelled: `parse` stands for it and
    yields the tree of the fields the mapping reads. */
module GoodreadsService {

  import opened Types
  import Text
  import Http
  import Storage

  /** No more than this many feed items are mapped. */
  const MaxFeedItems := 20

  /** The value the parser gives an element's text: a string, or a number when
      the text reads as one. */
  datatype Field = StringValue(s: string) | NumberValue(n: int)

  /** An optional field in a JavaScript condition: present, and neither '' nor 0. */
  predicate Present(f: Option<Field>) {
    f.Some? && match f.value
      case StringValue(s) => s != ""
      case NumberValue(n) => n != 0
  }

  /** The text a present field contributes once it stands in a string field of a record. */
  function Value(f: Option<Field>): (r: string)
    requires Present(f)
    ensures r != ""
  {
    match f.value
    case StringValue(s) => s
    case NumberValue(n) => Text.IntToString(n)
  }

  /** `f || ''`. */
  function OrEmpty(f: Option<Field>): string {
    if Present(f) then Value(f) else ""
  }

  /** The nested `<author>` element; its `<name>` may be missing. */
  datatype AuthorNode = AuthorNode(name: Option<Field>)

  /** One `<item>` of the feed, with every field the mapping reads. */
  datatype RssItem = RssItem(
    bookId: Option<Field>,
    guid: Option<Field>,
    title: Option<Field>,
    authorName: Option<Field>,
    author: Option<AuthorNode>,
    bookPublished: Option<Field>,
    isbn: Option<Field>,
    bookLargeImageUrl: Option<Field>,
    bookImageUrl: Option<Field>,
    bookMediumImageUrl: Option<Field>,
    bookSmallImageUrl: Option<Field>,
    link: Option<Field>)

  /** An `<item>` with none of the fields the mapping reads. */
  const EmptyItem := RssItem(None, None, None, None, None, None, None, None, None, None, None, None)

  /** The parser gives a list when the channel has several `<item>`s and the item itself when it has one. */
  datatype ItemNode = ItemList(items: seq<RssItem>) | SingleItem(item: RssItem)

  datatype Channel = Channel(item: Option<ItemNode>)

  datatype RssNode = RssNode(channel: Option<Channel>)

  /** The parse result; an element without any content is absent. */
  datatype Document = Document(rss: Option<RssNode>)

  // ---------------------------------------------------------------------
  // The saved feed URL

  /** `getRssUrl`: the stored URL, or null when it is absent or cannot be read. */
  function GetRssUrl(db: Storage.Database): (r: Option<string>)
    reads db
    ensures !db.readable ==> r.None?
    ensures db.readable ==> r == db.rssUrl
  {
    if db.readable then db.rssUrl else None
  }

  /** `saveRssUrl`: writes the feed URL key and nothing else; a write fault is rethrown. */
  method SaveRssUrl(db: Storage.Database, url: string) returns (o: Outcome)
    modifies db`rssUrl
    ensures o == if db.writable then Pass else Fail(db.WriteError())
    ensures db.rssUrl == if db.writable then Some(url) else old(db.rssUrl)
    ensures db.writable && db.readable ==> GetRssUrl(db) == Some(url)
  {
    if db.writable {
      db.rssUrl := Some(url);
      o := Pass;
    } else {
      o := Fail(db.WriteError());
    }
  }

  // ---------------------------------------------------------------------
  // Text cleaning

  /** `cleanText`: '' for a missing or empty text, otherwise the text with its
      tags removed and its character references decoded. `None` stands for the
      `TypeError` thrown when the parser produced a number, which has no `replace`. */
  function CleanText(text: Option<Field>): (r: Option<string>)
    ensures !Present(text) ==> r == Some("")
    ensures Present(text) && text.value.NumberValue? ==> r.None?
    ensures text.Some? && text.value.StringValue? ==> r.Some? && |r.value| <= |text.value.s|
  {
    if !Present(text) then Some("")
    else match text.value
      case StringValue(s) => Some(Text.DecodeEntities(Text.StripTags(s)))
      case NumberValue(_) => None
  }

  /** Text with neither markup nor references comes out of cleaning as it went in. */
  lemma CleanTextPlain(s: string)
    requires forall i :: 0 <= i < |s| ==> s[i] != '<' && s[i] != '&'
    ensures CleanText(Some(StringValue(s))) == Some(s)
  {
    Text.StripTagsWithoutTags(s);
    Text.DecodeEntitiesWithoutReferences(s);
  }

  lemma CleanTextItalicTitle()
    ensures CleanText(Some(StringValue("<i>Dune</i>"))) == Some("Dune")
  {
    var dune := "Dune";
    Text.StripTagsItalic();
    Text.DecodeEntitiesWithoutReferences(dune);
  }

  // ---------------------------------------------------------------------
  // Field fallbacks

  /** The id made up for an item with neither a book id nor a guid. */
  function SynthesizedId(now: nat, token: string): string {
    "goodreads-" + Text.NatToString(now) + "-" + token
  }

  /** `item.book_id || item.guid || goodreads-<now>-<token>`. */
  function BookIdOf(item: RssItem, now: nat, token: string): (id: string)
    ensures id != ""
    ensures Present(item.bookId) ==> id == Value(item.bookId)
    ensures !Present(item.bookId) && Present(item.guid) ==> id == Value(item.guid)
    ensures !Present(item.bookId) && !Present(item.guid) ==> "goodreads-" <= id
  {
    if Present(item.bookId) then Value(item.bookId)
    else if Present(item.guid) then Value(item.guid)
    else SynthesizedId(now, token)
  }

  /** `cleanText(item.title) || 'Unknown Title'`, once the title has been cleaned. */
  function TitleOf(cleaned: string): (title: string)
    ensures title != ""
    ensures cleaned != "" ==> title == cleaned
  {
    if cleaned == "" then "Unknown Title" else cleaned
  }

  /** As written: `item.author_name || (item.author ? item.author.name : 'Unknown Author')`.
      `None` is the undefined author of an item whose `<author>` has no `<name>`. */
  function AuthorAsWritten(item: RssItem): (r: Option<string>)
    ensures Present(item.authorName) ==> r == Some(Value(item.authorName))
    ensures !Present(item.authorName) && item.author.None? ==> r == Some("Unknown Author")
    ensures r.None? <==> !Present(item.authorName) && item.author.Some? && item.author.value.name.None?
  {
    if Present(item.authorName) then Some(Value(item.authorName))
    else if item.author.Some? then
      match item.author.value.name
      case Some(f) => Some(if Present(Some(f)) then Value(Some(f)) else "")
      case None => None
    else Some("Unknown Author")
  }

  /** An item with an `<author>` element that holds no `<name>` gets no author at all. */
  lemma AuthorAsWrittenUndefined(item: RssItem)
    requires !Present(item.authorName) && item.author == Some(AuthorNode(None))
    ensures AuthorAsWritten(item).None?
    ensures AuthorOf(item) == "Unknown Author"
  {
  }

  /** The author fallback chain as intended: `author_name`, else the nested
      author's name, else 'Unknown Author'; never empty, and equal to the
      chain as written wherever that one yields a non-empty author. */
  function AuthorOf(item: RssItem): (author: string)
    ensures author != ""
    ensures AuthorAsWritten(item).Some? && AuthorAsWritten(item).value != "" ==> author == AuthorAsWritten(item).value
    ensures !Present(item.authorName) && item.author.None? ==> author == "Unknown Author"
  {
    if Present(item.authorName) then Value(item.authorName)
    else if item.author.Some? && Present(item.author.value.name) then Value(item.author.value.name)
    else "Unknown Author"
  }

  /** The longest prefix of s made of decimal digits (`\d+` matched greedily). */
  function DigitRun(s: string): (r: string)
    ensures r <= s
    ensures forall i :: 0 <= i < |r| ==> Text.IsDigit(r[i])
    ensures |r| < |s| ==> !Text.IsDigit(s[|r|])
  {
    if s != [] && Text.IsDigit(s[0]) then [s[0]] + DigitRun(s[1..]) else []
  }

  /** The group of the first match of `/\/show\/(\d+)/` in a permalink. */
  function ShowId(link: string): (r: Option<string>)
    ensures r.Some? ==> r.value != "" && Text.Contains(link, "/show/" + r.value)
    ensures r.Some? ==> forall i :: 0 <= i < |r.value| ==> Text.IsDigit(r.value[i])
    decreases |link|
  {
    if |link| < 7 then None
    else if "/show/" <= link && Text.IsDigit(link[6]) then
      var digits := DigitRun(link[6..]);
      assert "/show/" + digits <= link;
      Some(digits)
    else ShowId(link[1..])
  }

  /** `/show/` followed by a digit starts at index k of the link. */
  predicate ShowAt(link: string, k: int) {
    0 <= k && k + 7 <= |link| && link[k..k + 6] == "/show/" && Text.IsDigit(link[k + 6])
  }

  /** `ShowId` is the regular expression's match: none exactly when no
      `/show/<digit>` occurs, else the leftmost occurrence with its digits
      taken greedily. */
  lemma {:induction false} ShowIdLeftmost(link: string)
    ensures ShowId(link).None? <==> forall k :: 0 <= k < |link| ==> !ShowAt(link, k)
    ensures ShowId(link).Some? ==>
      exists k :: ShowAt(link, k) && (forall j :: 0 <= j < k ==> !ShowAt(link, j))
                  && ShowId(link).value == DigitRun(link[k + 6..])
    decreases |link|
  {
    if |link| < 7 {
      assert forall k :: 0 <= k < |link| ==> !ShowAt(link, k);
    } else if "/show/" <= link && Text.IsDigit(link[6]) {
      assert link[0..6] == "/show/";
      assert ShowAt(link, 0);
    } else {
      assert !ShowAt(link, 0) by {
        if link[0..6] == "/show/" {
          assert "/show/" <= link;
        }
      }
      var tail := link[1..];
      ShowIdLeftmost(tail);
      forall k | 0 <= k < |tail|
        ensures ShowAt(link, k + 1) <==> ShowAt(tail, k)
      {
        if k + 7 <= |tail| {
          assert tail[k..k + 6] == link[k + 1..k + 7];
          assert tail[k + 6] == link[k + 7];
        }
      }
      if ShowId(tail).Some? {
        var k :| ShowAt(tail, k) && (forall j :: 0 <= j < k ==> !ShowAt(tail, j))
                 && ShowId(tail).value == DigitRun(tail[k + 6..]);
        assert tail[k + 6..] == link[k + 7..];
        assert ShowAt(link, k + 1);
        forall j | 0 <= j < k + 1 ensures !ShowAt(link, j) {
          if j > 0 {
            assert !ShowAt(tail, j - 1);
          }
        }
      } else {
        forall k | 0 <= k < |link| ensures !ShowAt(link, k) {
          if k > 0 {
            assert !ShowAt(tail, k - 1);
          }
        }
      }
    }
  }

  const PlaceholderPrefix := "https://i.gr-assets.com/images/S/compressed.photo.goodreads.com/books/placeholder/"

  /** The cover made up from a Goodreads book id. */
  function PlaceholderCover(bookId: string): string {
    PlaceholderPrefix + bookId + "._SX318_.jpg"
  }

  /** The link is a text that mentions goodreads.com (`item.link && item.link.includes('goodreads.com')`). */
  predicate GoodreadsPermalink(link: Option<Field>) {
    link.Some? && link.value.StringValue? && Text.Contains(link.value.s, "goodreads.com")
  }

  /** Some image URL of the item is present. */
  predicate AnyImage(item: RssItem) {
    Present(item.bookLargeImageUrl) || Present(item.bookImageUrl)
    || Present(item.bookMediumImageUrl) || Present(item.bookSmallImageUrl)
  }

  /** The `coverUrl` chain: the first present of the large, standard, medium
      and small image URLs; else, for a Goodreads permalink with a `/show/<digits>`
      part, the placeholder built from those digits; else ''. */
  function CoverUrlOf(item: RssItem): (cover: string)
    ensures Present(item.bookLargeImageUrl) ==> cover == Value(item.bookLargeImageUrl)
    ensures !Present(item.bookLargeImageUrl) && Present(item.bookImageUrl) ==> cover == Value(item.bookImageUrl)
    ensures !Present(item.bookLargeImageUrl) && !Present(item.bookImageUrl) && Present(item.bookMediumImageUrl)
            ==> cover == Value(item.bookMediumImageUrl)
    ensures !Present(item.bookLargeImageUrl) && !Present(item.bookImageUrl)
            && !Present(item.bookMediumImageUrl) && Present(item.bookSmallImageUrl)
            ==> cover == Value(item.bookSmallImageUrl)
    ensures !AnyImage(item) && GoodreadsPermalink(item.link) && ShowId(item.link.value.s).Some?
            ==> cover == PlaceholderCover(ShowId(item.link.value.s).value)
    ensures !AnyImage(item) && !(GoodreadsPermalink(item.link) && ShowId(item.link.value.s).Some?) ==> cover == ""
    ensures !AnyImage(item) && cover != "" ==>
      exists digits :: digits != "" && Text.Contains(item.link.value.s, "/show/" + digits)
                       && cover == PlaceholderCover(digits)
  {
    if Present(item.bookLargeImageUrl) then Value(item.bookLargeImageUrl)
    else if Present(item.bookImageUrl) then Value(item.bookImageUrl)
    else if Present(item.bookMediumImageUrl) then Value(item.bookMediumImageUrl)
    else if Present(item.bookSmallImageUrl) then Value(item.bookSmallImageUrl)
    else if GoodreadsPermalink(item.link) then
      match ShowId(item.link.value.s)
      case Some(digits) => PlaceholderCover(digits)
      case None => ""
    else ""
  }

  /** The minimal record that replaces an item whose mapping threw. */
  function ErrorRecord(item: RssItem, now: nat): (b: Book)
    ensures b.title != ""
  {
    Book("error-" + Text.NatToString(now),
         if Present(item.title) then Value(item.title) else "Error parsing book",
         "Unknown", "", None, Some(""), Some(""), None)
  }

  /** `parseRssItem`, with the time and the random token it would draw given
      as `now` and `token`. */
  function ParseRssItem(item: RssItem, now: nat, token: string): (b: Book)
    ensures b.id != "" && b.title != "" && b.author != ""
    ensures b.availability.None? && b.isbn13.None?
  {
    match CleanText(item.title)
    case None => ErrorRecord(item, now)
    case Some(cleaned) =>
      Book(BookIdOf(item, now, token), TitleOf(cleaned), AuthorOf(item),
           OrEmpty(item.isbn), None, Some(CoverUrlOf(item)), Some(OrEmpty(item.bookPublished)), None)
  }

  /** Every record the mapping yields has a non-empty id, title and author and no
      availability; an item whose title is text always takes the fallback chains. */
  lemma ParseRssItemFields(item: RssItem, now: nat, token: string)
    ensures var b := ParseRssItem(item, now, token);
      && b.id != "" && b.title != "" && b.author != ""
      && b.availability.None? && b.isbn13.None?
      && (CleanText(item.title).Some? ==>
            && b.id == BookIdOf(item, now, token)
            && b.title == TitleOf(CleanText(item.title).value)
            && b.author == AuthorOf(item)
            && b.isbn == OrEmpty(item.isbn)
            && b.coverUrl == Some(CoverUrlOf(item))
            && b.publishedDate == Some(OrEmpty(item.bookPublished)))
  {
  }

  /** A title the parser turned into a non-zero number makes the mapping throw;
      the item becomes the minimal error record. */
  lemma ParseRssItemNumericTitle(item: RssItem, now: nat, token: string)
    requires item.title.Some? && item.title.value.NumberValue? && item.title.value.n != 0
    ensures var b := ParseRssItem(item, now, token);
      && b.id == "error-" + Text.NatToString(now)
      && b.title == Text.IntToString(item.title.value.n)
      && b.author == "Unknown" && b.isbn == ""
      && b.coverUrl == Some("") && b.publishedDate == Some("")
  {
  }

  /** The worked example: an item with a book id, a marked-up title, an author
      name, an ISBN and a large image. */
  lemma ParseRssItemDune(now: nat, token: string)
    ensures ParseRssItem(
      EmptyItem.(bookId := Some(StringValue("77")),
                 title := Some(StringValue("<i>Dune</i>")),
                 authorName := Some(StringValue("Frank Herbert")),
                 isbn := Some(StringValue("0441013597")),
                 bookLargeImageUrl := Some(StringValue("http://x/cover.jpg"))), now, token)
      == Book("77", "Dune", "Frank Herbert", "0441013597", None,
              Some("http://x/cover.jpg"), Some(""), None)
  {
    CleanTextItalicTitle();
  }

  // ---------------------------------------------------------------------
  // The feed

  /** `Array.isArray(item) ? item : [item]`. */
  function ItemsOf(node: ItemNode): (items: seq<RssItem>)
    ensures node.SingleItem? ==> items == [node.item]
    ensures node.ItemList? ==> items == node.items
  {
    match node
    case ItemList(items) => items
    case SingleItem(item) => [item]
  }

  /** `items.slice(0, 20)`. */
  function FirstItems(items: seq<RssItem>): (r: seq<RssItem>)
    ensures |r| == if |items| <= MaxFeedItems then |items| else MaxFeedItems
    ensures r == items[..|r|]
  {
    if |items| <= MaxFeedItems then items else items[..MaxFeedItems]
  }

  /** `items.map(parseRssItem)`, the i-th item drawing time `clock(i)` and token `random(i)`. */
  function MapItems(items: seq<RssItem>, clock: nat -> nat, random: nat -> string): (books: seq<Book>)
    ensures |books| == |items|
  {
    seq(|items|, i requires 0 <= i < |items| => ParseRssItem(items[i], clock(i), random(i)))
  }

  /** The records of a parsed feed: a parse error without an `rss` or a
      `channel`, no records without an `item`, else the first twenty items
      mapped in feed order. */
  function FeedRecords(doc: Document, clock: nat -> nat, random: nat -> string): (r: Result<seq<Book>>)
    ensures r.Err? <==> doc.rss.None? || doc.rss.value.channel.None?
    ensures r.Err? ==> r.error == InvalidFeed
    ensures r.Ok? ==> |r.value| <= MaxFeedItems
    ensures r.Ok? && doc.rss.value.channel.value.item.None? ==> r.value == []
    ensures r.Ok? && doc.rss.value.channel.value.item.Some? ==>
      var items := ItemsOf(doc.rss.value.channel.value.item.value);
      && |r.value| == (if |items| <= MaxFeedItems then |items| else MaxFeedItems)
      && forall i :: 0 <= i < |r.value| ==> r.value[i] == ParseRssItem(items[i], clock(i), random(i))
  {
    if doc.rss.None? || doc.rss.value.channel.None? then Err(InvalidFeed)
    else match doc.rss.value.channel.value.item
      case None => Ok([])
      case Some(node) => Ok(MapItems(FirstItems(ItemsOf(node)), clock, random))
  }

  /** A channel with a single `<item>` yields exactly one record. */
  lemma SingleItemOneRecord(doc: Document, clock: nat -> nat, random: nat -> string)
    requires doc.rss.Some? && doc.rss.value.channel.Some?
    requires doc.rss.value.channel.value.item.Some? && doc.rss.value.channel.value.item.value.SingleItem?
    ensures FeedRecords(doc, clock, random)
      == Ok([ParseRssItem(doc.rss.value.channel.value.item.value.item, clock(0), random(0))])
  {
    var item := doc.rss.value.channel.value.item.value.item;
    var r := FeedRecords(doc, clock, random);
    assert ItemsOf(doc.rss.value.channel.value.item.value) == [item];
    assert |r.value| == 1 && r.value[0] == ParseRssItem(item, clock(0), random(0));
    assert r.value == [ParseRssItem(item, clock(0), random(0))];
  }

  /** The part of `fetchBooks` after the URL is known: fetch through the
      relay, refuse a failed or blank response, then map the parsed feed. */
  function FetchFeed(url: string, fetch: string -> Http.Response, parse: string -> Document,
                     clock: nat -> nat, random: nat -> string): (r: Result<seq<Book>>)
    ensures match fetch(Http.ProxyUrl(url))
      case NetworkFailure(m) => r == Err(NetworkError(m))
      case NotOk(_, text) => r == Err(FeedHttpError(text))
      case Ok(body) =>
        && (Text.IsBlank(body) ==> r == Err(EmptyFeed))
        && (!Text.IsBlank(body) ==> r == FeedRecords(parse(body), clock, random))
    ensures r.Ok? ==> |r.value| <= MaxFeedItems
  {
    match fetch(Http.ProxyUrl(url))
    case NetworkFailure(m) => Err(NetworkError(m))
    case NotOk(_, text) => Err(FeedHttpError(text))
    case Ok(body) =>
      if Text.TrimsToEmpty(body) then Err(EmptyFeed) else FeedRecords(parse(body), clock, random)
  }

  /** `fetchBooks(rssUrl)`: the URL given, else the saved one; without either
      it throws before anything is fetched. */
  function FetchBooks(db: Storage.Database, rssUrl: Option<string>, fetch: string -> Http.Response,
                      parse: string -> Document, clock: nat -> nat, random: nat -> string): (r: Result<seq<Book>>)
    reads db
    ensures var url := Or(rssUrl, GetRssUrl(db));
      && (!Truthy(url) ==> r == Err(NoRssUrl))
      && (Truthy(url) ==> r == FetchFeed(url.value, fetch, parse, clock, random))
    ensures Truthy(rssUrl) ==> r == FetchFeed(rssUrl.value, fetch, parse, clock, random)
    ensures r.Ok? ==> |r.value| <= MaxFeedItems
  {
    var url := Or(rssUrl, GetRssUrl(db));
    if !Truthy(url) then Err(NoRssUrl) else FetchFeed(url.value, fetch, parse, clock, random)
  }
}
