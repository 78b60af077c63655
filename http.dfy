/** What the services see of the network: the outcome of one `fetch` of a
    text resource, `encodeURIComponent`, and the cross-origin relay through
    which the feed and the catalog page are fetched. */
module Http {

  import Text

  /** The outcome of `fetch(url)` followed by `response.text()`: a body when
      `response.ok`, the status when not, or a rejected promise. */
  datatype Response =
    | Ok(body: string)
    | NotOk(status: nat, statusText: string)
    | NetworkFailure(message: string)

  /** The characters `encodeURIComponent` leaves as they are. */
  predicate IsUnreserved(c: char) {
    || ('A' <= c <= 'Z') || ('a' <= c <= 'z') || ('0' <= c <= '9')
    || c == '-' || c == '_' || c == '.' || c == '!' || c == '~' || c == '*'
    || c == '\'' || c == '(' || c == ')'
  }

  predicate IsUpperHexDigit(c: char) {
    ('0' <= c <= '9') || ('A' <= c <= 'F')
  }

  function HexDigit(d: nat): (c: char)
    requires d < 16
    ensures IsUpperHexDigit(c)
  {
    "0123456789ABCDEF"[d]
  }

  /** The UTF-8 encoding of one Unicode scalar value. */
  function Utf8(c: char): (bytes: seq<nat>)
    ensures 1 <= |bytes| <= 4
    ensures forall i :: 0 <= i < |bytes| ==> bytes[i] < 256
  {
    var n := c as int;
    if n < 0x80 then [n]
    else if n < 0x800 then [0xC0 + n / 64, 0x80 + n % 64]
    else if n < 0x10000 then [0xE0 + n / 4096, 0x80 + (n / 64) % 64, 0x80 + n % 64]
    else [0xF0 + n / 262144 % 8, 0x80 + (n / 4096) % 64, 0x80 + (n / 64) % 64, 0x80 + n % 64]
  }

  /** Each byte written as '%' followed by two upper-case hexadecimal digits. */
  function PercentEncode(bytes: seq<nat>): (r: string)
    requires forall i :: 0 <= i < |bytes| ==> bytes[i] < 256
    ensures |r| == 3 * |bytes|
    ensures forall i :: 0 <= i < |r| ==> r[i] == '%' || IsUpperHexDigit(r[i])
  {
    if bytes == [] then ""
    else ['%', HexDigit(bytes[0] / 16), HexDigit(bytes[0] % 16)] + PercentEncode(bytes[1..])
  }

  /** `encodeURIComponent(s)`: unreserved characters are kept, every other
      character is replaced by the percent-encoding of its UTF-8 bytes. */
  function EncodeUriComponent(s: string): (r: string)
    ensures forall i :: 0 <= i < |r| ==> IsUnreserved(r[i]) || r[i] == '%'
    ensures |r| >= |s|
  {
    if s == [] then ""
    else
      var head := if IsUnreserved(s[0]) then [s[0]] else PercentEncode(Utf8(s[0]));
      assert forall i :: 0 <= i < |head| ==> IsUnreserved(head[i]) || head[i] == '%';
      head + EncodeUriComponent(s[1..])
  }

  /** A text made only of unreserved characters, an ISBN for one, is not changed by encoding. */
  lemma {:induction false} EncodeUnreservedUnchanged(s: string)
    requires forall i :: 0 <= i < |s| ==> IsUnreserved(s[i])
    ensures EncodeUriComponent(s) == s
  {
    if s != [] {
      EncodeUnreservedUnchanged(s[1..]);
    }
  }

  /** The relay every cross-origin request goes through. */
  const CorsProxy := "https://corsproxy.io/?"

  /** The URL actually fetched for a target URL. */
  function ProxyUrl(url: string): (r: string)
    ensures CorsProxy <= r
    ensures forall i :: |CorsProxy| <= i < |r| ==> r[i] != '&' && r[i] != '?' && r[i] != '#'
  {
    CorsProxy + EncodeUriComponent(url)
  }
}
