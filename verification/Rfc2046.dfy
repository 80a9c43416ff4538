// A reader of multipart bodies after the grammar in section 5.1.1 of RFC 2046, with the
// octets that it names: 13 and 10 end a line, 45 is a hyphen, 58 a colon, 32 and 9 are
// white space.
module Rfc2046 {
  import opened Wrappers
  import opened Bits

  const LINE_BREAK: seq<byte> := [13, 10]
  const HYPHENS: seq<byte> := [45, 45]

  predicate OccursAt(s: seq<byte>, d: seq<byte>, k: nat) {
    k + |d| <= |s| && s[k..k + |d|] == d
  }

  // The first occurrence at or after k.
  function FindFrom(s: seq<byte>, d: seq<byte>, k: nat): (r: Option<nat>)
    ensures r.Some? ==> k <= r.value && OccursAt(s, d, r.value)
    ensures forall j: nat :: k <= j && OccursAt(s, d, j) ==> r.Some? && r.value <= j
    decreases |s| - k
  {
    if k + |d| > |s| then None
    else if OccursAt(s, d, k) then Some(k)
    else FindFrom(s, d, k + 1)
  }

  function Find(s: seq<byte>, d: seq<byte>): (r: Option<nat>)
    ensures r.Some? ==> OccursAt(s, d, r.value)
    ensures forall k: nat :: OccursAt(s, d, k) ==> r.Some? && r.value <= k
  {
    FindFrom(s, d, 0)
  }

  // What the grammar lets be read off one body part: its header lines and its body.
  datatype Content = Content(lines: seq<seq<byte>>, body: seq<byte>)

  // body-part := MIME-part-headers [CRLF *OCTET], each header ending in CRLF
  function ParsePart(text: seq<byte>): Option<Content>
    decreases |text|
  {
    if text == [] then Some(Content([], []))
    else
      match Find(text, LINE_BREAK)
      case None => None
      case Some(p) =>
        if p == 0 then Some(Content([], text[2..]))
        else
          match ParsePart(text[p + 2..])
          case None => None
          case Some(content) => Some(Content([text[..p]] + content.lines, content.body))
  }

  // transport-padding := *LWSP-char
  function DropPadding(text: seq<byte>): (r: seq<byte>)
    ensures |r| <= |text|
  {
    if text != [] && (text[0] == 32 || text[0] == 9) then DropPadding(text[1..]) else text
  }

  // delimiter := CRLF "--" boundary
  function Delimiter(boundary: seq<byte>): seq<byte> { LINE_BREAK + HYPHENS + boundary }

  // The part up to the next delimiter, and what follows that. A delimiter also counts
  // when its CRLF is the one that ends the line of the delimiter before it.
  function NextPart(text: seq<byte>, boundary: seq<byte>): (r: Option<(Content, seq<byte>)>)
    ensures r.Some? ==> |r.value.1| < |text|
  {
    if !(LINE_BREAK <= text) then None
    else
      match Find(text, Delimiter(boundary))
      case None => None
      case Some(p) =>
        if p < 2 then None
        else
          match ParsePart(text[2..p])
          case None => None
          case Some(content) => Some((content, text[p + |Delimiter(boundary)|..]))
  }

  // What follows a delimiter: "--" after the last one, or else a part.
  function ParseParts(text: seq<byte>, boundary: seq<byte>): Option<seq<Content>>
    decreases |text|
  {
    if HYPHENS <= text then
      var rest := DropPadding(text[2..]);
      if rest == [] || LINE_BREAK <= rest then Some([]) else None
    else
      match NextPart(DropPadding(text), boundary)
      case None => None
      case Some((content, rest)) => Prepend(content, ParseParts(rest, boundary))
  }

  function Prepend(content: Content, contents: Option<seq<Content>>): Option<seq<Content>> {
    if contents.None? then None else Some([content] + contents.value)
  }

  // Whatever precedes the first delimiter is the preamble. A delimiter begins a line;
  // the first one may begin the text.
  function Parse(data: seq<byte>, boundary: seq<byte>): Option<seq<Content>> {
    match Find(LINE_BREAK + data, Delimiter(boundary))
    case None => None
    case Some(p) => ParseParts((LINE_BREAK + data)[p + |Delimiter(boundary)|..], boundary)
  }

  // name ":" [one space] value
  function ParseHeader(line: seq<byte>): Option<(seq<byte>, seq<byte>)> {
    match Find(line, [58])
    case None => None
    case Some(p) =>
      var value := line[p + 1..];
      Some((line[..p], if [32] <= value then value[1..] else value))
  }
}
