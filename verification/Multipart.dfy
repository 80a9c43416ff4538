// The framing of Alamofire's MultipartFormData.
module Multipart {
  import opened Bits

  const CR: byte := 13
  const LF: byte := 10
  const CRLF: seq<byte> := [CR, LF]
  const DASHES: seq<byte> := [45, 45]
  const COLON: byte := 58
  const SPACE: byte := 32

  datatype Header = Header(name: seq<byte>, value: seq<byte>)
  datatype Part = Part(headers: seq<Header>, body: seq<byte>)

  datatype BoundaryType = Initial | Encapsulated | Final

  function BoundaryData(boundaryType: BoundaryType, boundary: seq<byte>): seq<byte> {
    match boundaryType
    case Initial => DASHES + boundary + CRLF
    case Encapsulated => CRLF + DASHES + boundary + CRLF
    case Final => CRLF + DASHES + boundary + DASHES + CRLF
  }

  function HeaderLine(h: Header): seq<byte> { h.name + [COLON, SPACE] + h.value }

  function HeaderLines(headers: seq<Header>): seq<byte> {
    if headers == [] then [] else HeaderLine(headers[0]) + CRLF + HeaderLines(headers[1..])
  }

  function EncodeHeaders(headers: seq<Header>): seq<byte> { HeaderLines(headers) + CRLF }

  function EncodePart(part: Part, hasInitialBoundary: bool, hasFinalBoundary: bool, boundary: seq<byte>): seq<byte> {
    BoundaryData(if hasInitialBoundary then Initial else Encapsulated, boundary)
    + EncodeHeaders(part.headers) + part.body
    + (if hasFinalBoundary then BoundaryData(Final, boundary) else [])
  }

  // The parts from the k-th on, as encode writes them.
  function EncodeFrom(parts: seq<Part>, k: nat, boundary: seq<byte>): seq<byte>
    requires k <= |parts|
    decreases |parts| - k
  {
    if k == |parts| then []
    else EncodePart(parts[k], k == 0, k == |parts| - 1, boundary) + EncodeFrom(parts, k + 1, boundary)
  }

  function Encode(parts: seq<Part>, boundary: seq<byte>): seq<byte> { EncodeFrom(parts, 0, boundary) }

  lemma Shift(a: seq<byte>, b: seq<byte>, c: seq<byte>)
    ensures a + b + c == a + (b + c)
  {
  }
}
