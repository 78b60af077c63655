/** String operations the services rely on, written out over `seq<char>`:
    substring presence (`String.prototype.includes`), whitespace trimming
    (`trim`), `Array.prototype.join`, decimal rendering of numbers, the tag
    removal of `cleanText` (the global replace of `/<\/?[^>]+(>|$)/g` with
    the empty string) and a decoder for a few named character references. */
module Text {

  predicate IsDigit(c: char) {
    '0' <= c <= '9'
  }

  function DigitChar(d: nat): (c: char)
    requires d < 10
    ensures IsDigit(c)
  {
    "0123456789"[d]
  }

  /** The decimal digits of n, as `String(n)` writes them. */
  function NatToString(n: nat): (r: string)
    ensures |r| > 0
    ensures forall i :: 0 <= i < |r| ==> IsDigit(r[i])
    decreases n
  {
    if n < 10 then [DigitChar(n)] else NatToString(n / 10) + [DigitChar(n % 10)]
  }

  function IntToString(n: int): (r: string)
    ensures |r| > 0
  {
    if n < 0 then "-" + NatToString(-n) else NatToString(n)
  }

  // ---------------------------------------------------------------------
  // Substring presence

  /** sub occurs in s starting at index i. */
  predicate OccursAt(s: string, sub: string, i: int) {
    0 <= i && i + |sub| <= |s| && s[i..i + |sub|] == sub
  }

  /** `s.includes(sub)`. */
  predicate Contains(s: string, sub: string)
    decreases |s|
  {
    sub <= s || (|s| > 0 && Contains(s[1..], sub))
  }

  /** `Contains` finds exactly the occurrences: it holds iff sub starts at some index of s. */
  lemma {:induction false} ContainsIffOccurs(s: string, sub: string)
    ensures Contains(s, sub) <==> exists i :: OccursAt(s, sub, i)
    decreases |s|
  {
    if sub <= s {
      assert OccursAt(s, sub, 0);
    } else if |s| == 0 {
      assert forall i :: !OccursAt(s, sub, i);
    } else {
      ContainsIffOccurs(s[1..], sub);
      if exists i :: OccursAt(s[1..], sub, i) {
        var i :| OccursAt(s[1..], sub, i);
        assert s[1..][i..i + |sub|] == s[i + 1..i + 1 + |sub|];
        assert OccursAt(s, sub, i + 1);
      }
      if exists i :: OccursAt(s, sub, i) {
        var i :| OccursAt(s, sub, i);
        assert i != 0;
        assert s[1..][i - 1..i - 1 + |sub|] == s[i..i + |sub|];
        assert OccursAt(s[1..], sub, i - 1);
      }
    }
  }

  // ---------------------------------------------------------------------
  // Trimming

  /** The characters `String.prototype.trim` removes: ECMAScript WhiteSpace and LineTerminator. */
  predicate IsWhitespace(c: char) {
    || c == '\t' || c == '\n' || c == '\U{000B}' || c == '\U{000C}' || c == '\r' || c == ' '
    || c == '\U{00A0}' || c == '\U{1680}' || ('\U{2000}' <= c <= '\U{200A}')
    || c == '\U{2028}' || c == '\U{2029}' || c == '\U{202F}' || c == '\U{205F}'
    || c == '\U{3000}' || c == '\U{FEFF}'
  }

  predicate IsBlank(s: string) {
    forall i :: 0 <= i < |s| ==> IsWhitespace(s[i])
  }

  function TrimStart(s: string): (r: string)
    ensures |r| <= |s| && r == s[|s| - |r|..]
    ensures r == [] || !IsWhitespace(r[0])
    ensures r == [] <==> IsBlank(s)
    decreases |s|
  {
    if s != [] && IsWhitespace(s[0]) then TrimStart(s[1..]) else s
  }

  function TrimEnd(s: string): (r: string)
    ensures |r| <= |s| && r == s[..|r|]
    ensures r == [] || !IsWhitespace(r[|r| - 1])
    ensures r == [] <==> IsBlank(s)
    decreases |s|
  {
    if s != [] && IsWhitespace(s[|s| - 1]) then TrimEnd(s[..|s| - 1]) else s
  }

  /** `s.trim()`. */
  function Trim(s: string): string {
    TrimEnd(TrimStart(s))
  }

  /** `s.trim() === ''` holds exactly for the strings made only of whitespace, the empty one included. */
  lemma TrimEmptyIffBlank(s: string)
    ensures Trim(s) == "" <==> IsBlank(s)
  {
    var t := TrimStart(s);
    if t != [] {
      assert !IsWhitespace(t[0]);
      assert !IsBlank(t);
    }
  }

  /** `s.trim() === ''`, the test for an empty or whitespace-only text. */
  function TrimsToEmpty(s: string): (b: bool)
    ensures b <==> IsBlank(s)
  {
    TrimEmptyIffBlank(s);
    Trim(s) == ""
  }

  // ---------------------------------------------------------------------
  // Joining

  /** `parts.join(sep)`. */
  function Join(parts: seq<string>, sep: string): (r: string)
    ensures |parts| == 1 ==> r == parts[0]
    ensures parts == [] ==> r == ""
  {
    if |parts| == 0 then ""
    else if |parts| == 1 then parts[0]
    else parts[0] + sep + Join(parts[1..], sep)
  }

  // ---------------------------------------------------------------------
  // Tag removal

  /** The index of the first '>' at or after i, or |s| when there is none. */
  function TagEnd(s: string, i: nat): (j: nat)
    requires i <= |s|
    ensures i <= j <= |s|
    ensures j < |s| ==> s[j] == '>'
    ensures forall k :: i <= k < j ==> s[k] != '>'
    decreases |s| - i
  {
    if i == |s| || s[i] == '>' then i else TagEnd(s, i + 1)
  }

  /** A tag starts at the head of s: a '<' followed by a character other than '>'.
      From there `/<\/?[^>]+(>|$)/` matches up to the next '>' or to the end. */
  predicate TagStart(s: string) {
    |s| > 1 && s[0] == '<' && s[1] != '>'
  }

  /** The global replace of `/<\/?[^>]+(>|$)/g` with ''. Scanning left to right,
      a tag is removed through its closing '>' (or through the end of the text
      when it is never closed); every other character is kept. */
  function StripTags(s: string): (r: string)
    ensures |r| <= |s|
    decreases |s|
  {
    if s == [] then []
    else if TagStart(s) then
      var j := TagEnd(s, 1);
      if j == |s| then [] else StripTags(s[j + 1..])
    else [s[0]] + StripTags(s[1..])
  }

  /** What tag removal leaves behind: every '<' ends the text or is directly followed by '>'. */
  predicate TagFree(s: string) {
    forall i :: 0 <= i < |s| && s[i] == '<' ==> i + 1 == |s| || s[i + 1] == '>'
  }

  /** Text without '<' passes through unchanged. */
  lemma {:induction false} StripTagsWithoutTags(s: string)
    requires forall i :: 0 <= i < |s| ==> s[i] != '<'
    ensures StripTags(s) == s
    decreases |s|
  {
    if s != [] {
      StripTagsWithoutTags(s[1..]);
    }
  }

  lemma StripTagsHead(s: string)
    requires s != [] && !TagStart(s)
    ensures StripTags(s) == [s[0]] + StripTags(s[1..])
  {
  }

  /** Tag removal leaves no tag behind. */
  lemma {:induction false} StripTagsIsTagFree(s: string)
    ensures TagFree(StripTags(s))
    decreases |s|
  {
    if s == [] {
    } else if TagStart(s) {
      var j := TagEnd(s, 1);
      if j < |s| {
        StripTagsIsTagFree(s[j + 1..]);
      }
    } else {
      var rest := StripTags(s[1..]);
      StripTagsIsTagFree(s[1..]);
      var r := [s[0]] + rest;
      assert StripTags(s) == r;
      if s[0] == '<' && |s| > 1 {
        assert s[1] == '>';
        StripTagsHead(s[1..]);
        assert rest[0] == '>';
      }
      forall i | 0 <= i < |r| && r[i] == '<'
        ensures i + 1 == |r| || r[i + 1] == '>'
      {
        if i > 0 {
          assert rest[i - 1] == '<';
        }
      }
    }
  }

  /** Text without tags is a fixed point of tag removal. */
  lemma {:induction false} StripTagsFixesTagFree(s: string)
    requires TagFree(s)
    ensures StripTags(s) == s
    decreases |s|
  {
    if s != [] {
      assert !TagStart(s);
      assert TagFree(s[1..]) by {
        forall i | 0 <= i < |s[1..]| && s[1..][i] == '<'
          ensures i + 1 == |s[1..]| || s[1..][i + 1] == '>'
        {
          assert s[i + 1] == '<';
        }
      }
      StripTagsFixesTagFree(s[1..]);
    }
  }

  /** Removing tags twice removes nothing more than removing them once. */
  lemma StripTagsIdempotent(s: string)
    ensures StripTags(StripTags(s)) == StripTags(s)
  {
    StripTagsIsTagFree(s);
    StripTagsFixesTagFree(StripTags(s));
  }

  lemma StripTagsItalic()
    ensures StripTags("<i>Dune</i>") == "Dune"
  {
    var s := "<i>Dune</i>";
    assert TagEnd(s, 1) == 2;
    var t := s[3..];
    assert t == "Dune</i>";
    assert TagEnd("</i>", 1) == 3;
    assert StripTags("</i>") == [];
    assert StripTags("e</i>") == "e";
    assert StripTags("ne</i>") == "ne";
    assert StripTags("une</i>") == "une";
    assert StripTags(t) == "Dune";
  }

  // ---------------------------------------------------------------------
  // Character references

  /** A character reference the decoder knows, with its length in the text. */
  datatype Reference = Reference(length: nat, decoded: char) | NoReference

  /** The reference at the head of s, if it is one of the known ones. */
  function ReferenceAt(s: string): (ref: Reference)
    ensures ref.Reference? ==> 0 < ref.length <= |s| && s[0] == '&'
  {
    if "&amp;" <= s then Reference(5, '&')
    else if "&lt;" <= s then Reference(4, '<')
    else if "&gt;" <= s then Reference(4, '>')
    else if "&quot;" <= s then Reference(6, '"')
    else if "&apos;" <= s then Reference(6, '\'')
    else if "&#39;" <= s then Reference(5, '\'')
    else if "&nbsp;" <= s then Reference(6, '\U{00A0}')
    else NoReference
  }

  /** Left-to-right replacement of the known references by their characters;
      a decoded character is never decoded again. */
  function DecodeEntities(s: string): (r: string)
    ensures |r| <= |s|
    decreases |s|
  {
    if s == [] then []
    else match ReferenceAt(s)
      case Reference(n, c) => [c] + DecodeEntities(s[n..])
      case NoReference => [s[0]] + DecodeEntities(s[1..])
  }

  /** Text without '&' is not changed by decoding. */
  lemma {:induction false} DecodeEntitiesWithoutReferences(s: string)
    requires forall i :: 0 <= i < |s| ==> s[i] != '&'
    ensures DecodeEntities(s) == s
    decreases |s|
  {
    if s != [] {
      assert ReferenceAt(s).NoReference?;
      DecodeEntitiesWithoutReferences(s[1..]);
    }
  }
}
