// What the multipart printer writes, the reader reads.
module MultipartFraming {
  import opened Wrappers
  import opened Bits
  import opened Multipart
  import opened Rfc2046

  // ------------------------------------------------------- what is put in comes out

  ghost predicate Occurs(s: seq<byte>, d: seq<byte>) { exists k: nat :: OccursAt(s, d, k) }

  // A part from the end of its delimiter line on.
  function PartText(part: Part): seq<byte> { LINE_BREAK + (EncodeHeaders(part.headers) + part.body) }

  // Nothing in that looks like a delimiter, and no header contains a line break.
  ghost predicate Framable(part: Part, boundary: seq<byte>) {
    && !Occurs(PartText(part), Delimiter(boundary))
    && (forall h :: h in part.headers ==> !Occurs(HeaderLine(h), LINE_BREAK))
  }

  function ContentOf(part: Part): Content {
    Content(seq(|part.headers|, i requires 0 <= i < |part.headers| => HeaderLine(part.headers[i])), part.body)
  }

  function ContentsOf(parts: seq<Part>): seq<Content> {
    seq(|parts|, i requires 0 <= i < |parts| => ContentOf(parts[i]))
  }

  lemma OccurrenceAt(s: seq<byte>, d: seq<byte>, k: nat, j: nat)
    requires OccursAt(s, d, k) && j < |d|
    ensures s[k + j] == d[j]
  {
    assert s[k..k + |d|][j] == s[k + j];
  }

  // Such a text cannot overlap with itself.
  ghost predicate StartsOnce(d: seq<byte>) {
    d != [] && forall i :: 1 <= i < |d| ==> d[i] != d[0]
  }

  lemma DelimiterStartsOnce(boundary: seq<byte>)
    requires 13 !in boundary
    ensures StartsOnce(Delimiter(boundary))
  {
    var d := Delimiter(boundary);
    assert d[..4] == LINE_BREAK + HYPHENS && d[4..] == boundary;
    forall i | 1 <= i < |d| ensures d[i] != d[0] {
      if i >= 4 { assert d[i] == boundary[i - 4]; }
    }
  }

  lemma OccursBefore(x: seq<byte>, y: seq<byte>, d: seq<byte>, k: nat)
    requires OccursAt(x + y, d, k) && k + |d| <= |x|
    ensures OccursAt(x, d, k)
  {
    assert x[k..k + |d|] == (x + y)[k..k + |d|];
  }

  // A text that cannot overlap with itself is found right where it was put.
  lemma FirstFound(x: seq<byte>, d: seq<byte>, y: seq<byte>)
    requires StartsOnce(d) && !Occurs(x, d)
    ensures Find(x + (d + y), d) == Some(|x|)
  {
    var s := x + (d + y);
    assert OccursAt(s, d, |x|);
    forall r: nat | OccursAt(s, d, r) ensures |x| <= r {
      if r + |d| <= |x| {
        OccursBefore(x, d + y, d, r);
      } else if r < |x| {
        OccurrenceAt(s, d, r, |x| - r);
      }
    }
  }

  lemma Around(x: seq<byte>, d: seq<byte>, y: seq<byte>)
    ensures (x + (d + y))[..|x|] == x && (x + (d + y))[|x| + |d|..] == y
  {
    Shift(x, d, y);
  }

  lemma LineParses(line: seq<byte>, rest: seq<byte>)
    requires line != [] && !Occurs(line, LINE_BREAK) && ParsePart(rest).Some?
    ensures ParsePart(line + (LINE_BREAK + rest))
         == Some(Content([line] + ParsePart(rest).value.lines, ParsePart(rest).value.body))
  {
    FirstFound(line, LINE_BREAK, rest);
    Around(line, LINE_BREAK, rest);
  }

  lemma FirstHeader(h: Header, headers: seq<Header>, body: seq<byte>)
    ensures EncodeHeaders([h] + headers) + body == HeaderLine(h) + (LINE_BREAK + (EncodeHeaders(headers) + body))
    ensures ContentOf(Part([h] + headers, body)).lines == [HeaderLine(h)] + ContentOf(Part(headers, body)).lines
  {
    assert ([h] + headers)[1..] == headers;
    var line, lines := HeaderLine(h), HeaderLines(headers);
    Shift(line + LINE_BREAK, lines, LINE_BREAK);
    Shift(line + LINE_BREAK, lines + LINE_BREAK, body);
    Shift(line, LINE_BREAK, lines + LINE_BREAK + body);
  }

  lemma NoHeaders(body: seq<byte>)
    ensures ParsePart(EncodeHeaders([]) + body) == Some(Content([], body))
  {
    var text := EncodeHeaders([]) + body;
    assert text == LINE_BREAK + body;
    assert OccursAt(text, LINE_BREAK, 0);
  }

  lemma {:induction false} PartParses(headers: seq<Header>, body: seq<byte>)
    requires forall h :: h in headers ==> !Occurs(HeaderLine(h), LINE_BREAK)
    ensures ParsePart(EncodeHeaders(headers) + body) == Some(ContentOf(Part(headers, body)))
  {
    if headers == [] {
      NoHeaders(body);
      assert ContentOf(Part(headers, body)).lines == [];
    } else {
      PartParses(headers[1..], body);
      FirstHeader(headers[0], headers[1..], body);
      assert headers == [headers[0]] + headers[1..];
      assert headers[0] in headers;
      LineParses(HeaderLine(headers[0]), EncodeHeaders(headers[1..]) + body);
    }
  }

  // The text a delimiter line leaves starts with the line's break, unpadded.
  lemma LineEnds(content: seq<byte>, rest: seq<byte>)
    ensures var text := (LINE_BREAK + content) + rest;
      DropPadding(text) == text && LINE_BREAK <= text && !(HYPHENS <= text)
  {
    var text := (LINE_BREAK + content) + rest;
    assert text[0] == 13 && text[1] == 10;
    assert text[..2] == LINE_BREAK;
  }

  lemma FramedFound(text: seq<byte>, content: seq<byte>, rest: seq<byte>, boundary: seq<byte>)
    requires 13 !in boundary && !Occurs(LINE_BREAK + content, Delimiter(boundary))
    requires text == (LINE_BREAK + content) + (Delimiter(boundary) + rest)
    ensures
      var p := |content| + 2;
      && LINE_BREAK <= text && Find(text, Delimiter(boundary)) == Some(p)
      && text[2..p] == content && text[p + |Delimiter(boundary)|..] == rest
  {
    LineEnds(content, Delimiter(boundary) + rest);
    DelimiterStartsOnce(boundary);
    FirstFound(LINE_BREAK + content, Delimiter(boundary), rest);
    Around(LINE_BREAK + content, Delimiter(boundary), rest);
    Inside(content, Delimiter(boundary) + rest);
  }

  lemma NextPartFound(text: seq<byte>, content: seq<byte>, rest: seq<byte>, boundary: seq<byte>)
    requires 13 !in boundary && !Occurs(LINE_BREAK + content, Delimiter(boundary))
    requires text == (LINE_BREAK + content) + (Delimiter(boundary) + rest)
    ensures NextPart(text, boundary)
         == if ParsePart(content).None? then None else Some((ParsePart(content).value, rest))
  {
    FramedFound(text, content, rest, boundary);
  }

  lemma Inside(content: seq<byte>, rest: seq<byte>)
    ensures ((LINE_BREAK + content) + rest)[2..2 + |content|] == content
  {
  }

  // ParseParts behind a delimiter line.
  lemma OneRound(content: seq<byte>, tail: seq<byte>, boundary: seq<byte>)
    ensures
      var text := (LINE_BREAK + content) + tail;
      var next := NextPart(text, boundary);
      ParseParts(text, boundary)
      == if next.None? then None else Prepend(next.value.0, ParseParts(next.value.1, boundary))
  {
    LineEnds(content, tail);
  }

  lemma OnePartParses(part: Part, rest: seq<byte>, boundary: seq<byte>)
    requires 13 !in boundary && Framable(part, boundary)
    ensures ParseParts(PartText(part) + (Delimiter(boundary) + rest), boundary)
         == Prepend(ContentOf(part), ParseParts(rest, boundary))
  {
    PartParses(part.headers, part.body);
    var content, tail := EncodeHeaders(part.headers) + part.body, Delimiter(boundary) + rest;
    NextPartFound(PartText(part) + tail, content, rest, boundary);
    OneRound(content, tail, boundary);
  }

  // ------------------------------------------------------------ what is misread

  function LinesSize(lines: seq<seq<byte>>): nat {
    if lines == [] then 0 else |lines[0]| + 2 + LinesSize(lines[1..])
  }

  // The parser accounts for every byte of a part.
  lemma {:induction false} PartSize(text: seq<byte>)
    requires ParsePart(text).Some?
    ensures
      var c := ParsePart(text).value;
      |text| == LinesSize(c.lines) + 2 + |c.body| || (c.body == [] && |text| == LinesSize(c.lines))
    decreases |text|
  {
    if text != [] && Find(text, LINE_BREAK) != Some(0) {
      PartSize(text[Find(text, LINE_BREAK).value + 2..]);
    }
  }

  lemma {:induction false} HeadersSize(headers: seq<Header>, body: seq<byte>)
    ensures |EncodeHeaders(headers)| == LinesSize(ContentOf(Part(headers, body)).lines) + 2
  {
    var lines := ContentOf(Part(headers, body)).lines;
    if headers != [] {
      HeadersSize(headers[1..], body);
      assert lines[0] == HeaderLine(headers[0]);
      assert lines[1..] == ContentOf(Part(headers[1..], body)).lines;
    }
  }

  // No line the parser finds has a line break in it.
  lemma {:induction false} LinesWhole(text: seq<byte>, i: nat)
    requires ParsePart(text).Some? && i < |ParsePart(text).value.lines|
    ensures !Occurs(ParsePart(text).value.lines[i], LINE_BREAK)
    decreases |text|
  {
    var p := Find(text, LINE_BREAK).value;
    if i == 0 {
      forall k: nat | OccursAt(text[..p], LINE_BREAK, k) ensures false {
        OccursLater(text, p, k);
      }
      assert ParsePart(text).value.lines[0] == text[..p];
    } else {
      LinesWhole(text[p + 2..], i - 1);
    }
  }

  lemma OccursLater(text: seq<byte>, p: nat, k: nat)
    requires p <= |text| && OccursAt(text[..p], LINE_BREAK, k)
    ensures OccursAt(text, LINE_BREAK, k) && k < p
  {
    assert text[k..k + 2] == text[..p][k..k + 2];
  }

  // A part that has a delimiter in it is cut short.
  lemma PartCutShort(part: Part, tail: seq<byte>, boundary: seq<byte>)
    requires Occurs(PartText(part), Delimiter(boundary))
    ensures var r := NextPart(PartText(part) + tail, boundary); r.None? || r.value.0 != ContentOf(part)
  {
    var x, d := PartText(part), Delimiter(boundary);
    var text := x + tail;
    var k: nat :| OccursAt(x, d, k);
    assert text[k..k + |d|] == x[k..k + |d|];
    assert OccursAt(text, d, k);
    var p := Find(text, d).value;
    assert p <= k;
    if p >= 2 && ParsePart(text[2..p]).Some? {
      PartSize(text[2..p]);
      HeadersSize(part.headers, part.body);
      assert |text[2..p]| + 4 < |EncodeHeaders(part.headers)| + |part.body| + 2;
    }
  }

  lemma LineMisread(part: Part, h: Header)
    requires h in part.headers && Occurs(HeaderLine(h), LINE_BREAK)
    ensures ParsePart(EncodeHeaders(part.headers) + part.body) != Some(ContentOf(part))
  {
    var text := EncodeHeaders(part.headers) + part.body;
    if ParsePart(text) == Some(ContentOf(part)) {
      var i :| 0 <= i < |part.headers| && part.headers[i] == h;
      assert ContentOf(part).lines[i] == HeaderLine(h);
      LinesWhole(text, i);
    }
  }

  lemma PartMisread(part: Part, rest: seq<byte>, boundary: seq<byte>)
    requires 13 !in boundary && !Framable(part, boundary)
    ensures
      var r := ParseParts(PartText(part) + (Delimiter(boundary) + rest), boundary);
      r.Some? ==> r.value != [] && r.value[0] != ContentOf(part)
  {
    var content, tail := EncodeHeaders(part.headers) + part.body, Delimiter(boundary) + rest;
    OneRound(content, tail, boundary);
    if Occurs(PartText(part), Delimiter(boundary)) {
      PartCutShort(part, tail, boundary);
    } else {
      NextPartFound(PartText(part) + tail, content, rest, boundary);
      var h :| h in part.headers && Occurs(HeaderLine(h), LINE_BREAK);
      LineMisread(part, h);
    }
  }

  // --------------------------------------------------------------- whole forms

  // What encode has still to write after the delimiter of the k-th part.
  function AfterDelimiter(parts: seq<Part>, k: nat, boundary: seq<byte>): seq<byte>
    requires k < |parts|
    decreases |parts| - k
  {
    PartText(parts[k])
    + (Delimiter(boundary) + if k == |parts| - 1 then HYPHENS + LINE_BREAK else AfterDelimiter(parts, k + 1, boundary))
  }

  // The line break that the first part goes without.
  function Lead(first: bool, data: seq<byte>): seq<byte> { if first then LINE_BREAK + data else data }

  lemma DelimiterLeads(part: Part, first: bool, boundary: seq<byte>)
    ensures Lead(first, EncodePart(part, first, false, boundary)) == Delimiter(boundary) + PartText(part)
  {
    var plain := BoundaryData(if first then Initial else Encapsulated, boundary);
    assert Lead(first, plain) == Delimiter(boundary) + LINE_BREAK;
    Shift(LINE_BREAK, plain, EncodeHeaders(part.headers) + part.body);
    Shift(Delimiter(boundary), LINE_BREAK, EncodeHeaders(part.headers) + part.body);
    assert EncodePart(part, first, false, boundary) == plain + (EncodeHeaders(part.headers) + part.body);
  }

  lemma FinalFollows(part: Part, first: bool, boundary: seq<byte>)
    ensures EncodePart(part, first, true, boundary)
         == EncodePart(part, first, false, boundary) + (Delimiter(boundary) + (HYPHENS + LINE_BREAK))
  {
  }

  lemma LastUnfolds(parts: seq<Part>, boundary: seq<byte>)
    requires parts != []
    ensures var k := |parts| - 1;
      EncodeFrom(parts, k, boundary) == EncodePart(parts[k], k == 0, true, boundary)
  {
    assert EncodeFrom(parts, |parts|, boundary) == [];
  }

  lemma LastLeads(part: Part, first: bool, boundary: seq<byte>)
    ensures Lead(first, EncodePart(part, first, true, boundary))
         == Delimiter(boundary) + (PartText(part) + (Delimiter(boundary) + (HYPHENS + LINE_BREAK)))
  {
    FinalFollows(part, first, boundary);
    LeadsInto(part, first, Delimiter(boundary) + (HYPHENS + LINE_BREAK), boundary);
  }

  lemma {:induction false} DelimitersLead(parts: seq<Part>, k: nat, boundary: seq<byte>)
    requires k < |parts|
    ensures Lead(k == 0, EncodeFrom(parts, k, boundary))
         == Delimiter(boundary) + AfterDelimiter(parts, k, boundary)
    decreases |parts| - k
  {
    if k == |parts| - 1 {
      LastUnfolds(parts, boundary);
      LastLeads(parts[k], k == 0, boundary);
    } else {
      DelimitersLead(parts, k + 1, boundary);
      LeadsInto(parts[k], k == 0, EncodeFrom(parts, k + 1, boundary), boundary);
    }
  }

  lemma LeadsInto(part: Part, first: bool, rest: seq<byte>, boundary: seq<byte>)
    ensures Lead(first, EncodePart(part, first, false, boundary) + rest)
         == Delimiter(boundary) + (PartText(part) + rest)
  {
    DelimiterLeads(part, first, boundary);
    Shift(LINE_BREAK, EncodePart(part, first, false, boundary), rest);
    Shift(Delimiter(boundary), PartText(part), rest);
  }

  lemma CloseParses(boundary: seq<byte>)
    ensures ParseParts(HYPHENS + LINE_BREAK, boundary) == Some([])
  {
    assert (HYPHENS + LINE_BREAK)[2..] == LINE_BREAK;
  }

  lemma FirstContent(parts: seq<Part>, k: nat)
    requires k < |parts|
    ensures ContentsOf(parts[k..]) == [ContentOf(parts[k])] + ContentsOf(parts[k + 1..])
  {
  }

  lemma {:induction false} PartsParse(parts: seq<Part>, k: nat, boundary: seq<byte>)
    requires k < |parts| && 13 !in boundary
    requires forall part :: part in parts ==> Framable(part, boundary)
    ensures ParseParts(AfterDelimiter(parts, k, boundary), boundary) == Some(ContentsOf(parts[k..]))
    decreases |parts| - k
  {
    assert parts[k] in parts;
    FirstContent(parts, k);
    if k == |parts| - 1 {
      CloseParses(boundary);
      OnePartParses(parts[k], HYPHENS + LINE_BREAK, boundary);
    } else {
      PartsParse(parts, k + 1, boundary);
      OnePartParses(parts[k], AfterDelimiter(parts, k + 1, boundary), boundary);
    }
  }

  lemma PrependDistinct(c: Content, b: Option<seq<Content>>, contents: seq<Content>)
    requires b != Some(contents)
    ensures Prepend(c, b) != Some([c] + contents)
  {
    if b.Some? {
      assert ([c] + b.value)[1..] == b.value && ([c] + contents)[1..] == contents;
    }
  }

  lemma FirstParses(parts: seq<Part>, k: nat, boundary: seq<byte>)
    requires k < |parts| - 1 && 13 !in boundary && Framable(parts[k], boundary)
    ensures ParseParts(AfterDelimiter(parts, k, boundary), boundary)
         == Prepend(ContentOf(parts[k]), ParseParts(AfterDelimiter(parts, k + 1, boundary), boundary))
  {
    OnePartParses(parts[k], AfterDelimiter(parts, k + 1, boundary), boundary);
  }

  lemma FirstMisread(parts: seq<Part>, k: nat, boundary: seq<byte>)
    requires k < |parts| && 13 !in boundary && !Framable(parts[k], boundary)
    ensures
      var r := ParseParts(AfterDelimiter(parts, k, boundary), boundary);
      r.Some? ==> r.value != [] && r.value[0] != ContentOf(parts[k])
  {
    var rest := if k == |parts| - 1 then HYPHENS + LINE_BREAK else AfterDelimiter(parts, k + 1, boundary);
    PartMisread(parts[k], rest, boundary);
  }

  lemma {:induction false} PartsMisread(parts: seq<Part>, k: nat, j: nat, boundary: seq<byte>)
    requires k <= j < |parts| && 13 !in boundary && !Framable(parts[j], boundary)
    ensures ParseParts(AfterDelimiter(parts, k, boundary), boundary) != Some(ContentsOf(parts[k..]))
    decreases |parts| - k
  {
    FirstContent(parts, k);
    if !Framable(parts[k], boundary) {
      FirstMisread(parts, k, boundary);
    } else {
      PartsMisread(parts, k + 1, j, boundary);
      FirstParses(parts, k, boundary);
      var others := ParseParts(AfterDelimiter(parts, k + 1, boundary), boundary);
      PrependDistinct(ContentOf(parts[k]), others, ContentsOf(parts[k + 1..]));
    }
  }

  lemma EncodedForm(parts: seq<Part>, boundary: seq<byte>)
    requires parts != []
    ensures Parse(Encode(parts, boundary), boundary) == ParseParts(AfterDelimiter(parts, 0, boundary), boundary)
  {
    var d, rest := Delimiter(boundary), AfterDelimiter(parts, 0, boundary);
    DelimitersLead(parts, 0, boundary);
    var data := LINE_BREAK + Encode(parts, boundary);
    assert data == d + rest;
    assert OccursAt(data, d, 0);
    assert data[|d|..] == rest;
  }

  // An RFC 2046 reader recovers exactly the parts that were appended, in order, if and
  // only if no part contains the delimiter and no header a line break.
  lemma EncodedFormParses(parts: seq<Part>, boundary: seq<byte>)
    requires parts != [] && 13 !in boundary
    ensures Parse(Encode(parts, boundary), boundary) == Some(ContentsOf(parts))
      <==> forall part :: part in parts ==> Framable(part, boundary)
  {
    EncodedForm(parts, boundary);
    assert parts[0..] == parts;
    if forall part :: part in parts ==> Framable(part, boundary) {
      PartsParse(parts, 0, boundary);
    } else {
      var j: nat :| j < |parts| && !Framable(parts[j], boundary);
      PartsMisread(parts, 0, j, boundary);
    }
  }

  lemma HeaderParses(h: Header)
    requires 58 !in h.name
    ensures ParseHeader(HeaderLine(h)) == Some((h.name, h.value))
  {
    var line := HeaderLine(h);
    forall k: nat | OccursAt(h.name, [58], k) ensures false {
      OccurrenceAt(h.name, [58], k, 0);
    }
    FirstFound(h.name, [58], [32] + h.value);
    assert line == h.name + ([58] + ([32] + h.value));
    assert line[|h.name| + 1..] == [32] + h.value;
  }

  // So no two forms look alike.
  lemma FormsDistinct(parts: seq<Part>, parts': seq<Part>, boundary: seq<byte>)
    requires parts != [] && parts' != [] && 13 !in boundary
    requires forall part :: part in parts + parts' ==> Framable(part, boundary)
    requires forall part, h :: part in parts + parts' && h in part.headers ==> 58 !in h.name
    requires Encode(parts, boundary) == Encode(parts', boundary)
    ensures parts == parts'
  {
    EncodedFormParses(parts, boundary);
    EncodedFormParses(parts', boundary);
    assert |ContentsOf(parts)| == |parts| && |ContentsOf(parts')| == |parts'|;
    forall k | 0 <= k < |parts| ensures parts[k] == parts'[k] {
      var p, p' := parts[k], parts'[k];
      assert p in parts + parts' && p' in parts + parts';
      assert ContentsOf(parts)[k] == ContentOf(p) && ContentsOf(parts')[k] == ContentOf(p');
      assert |ContentOf(p).lines| == |p.headers| && |ContentOf(p').lines| == |p'.headers|;
      forall i | 0 <= i < |p.headers| ensures p.headers[i] == p'.headers[i] {
        assert ContentOf(p).lines[i] == HeaderLine(p.headers[i]);
        assert ContentOf(p').lines[i] == HeaderLine(p'.headers[i]);
        HeaderParses(p.headers[i]);
        HeaderParses(p'.headers[i]);
      }
    }
  }

  // The boundary texts, octet by octet.
  lemma BoundaryOctets(boundary: seq<byte>)
    ensures BoundaryData(Initial, boundary) == [45, 45] + boundary + [13, 10]
    ensures BoundaryData(Encapsulated, boundary) == [13, 10, 45, 45] + boundary + [13, 10]
    ensures BoundaryData(Final, boundary) == [13, 10, 45, 45] + boundary + [45, 45, 13, 10]
  {
  }
}
