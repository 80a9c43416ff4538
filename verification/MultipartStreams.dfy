// Alamofire's MultipartFormData: the form is built up by append, then encoded in memory
// or written to a stream.
module MultipartStreams {
  import opened Bits
  import opened Wrappers
  import opened Multipart

  const STREAM_BUFFER_SIZE: nat := 1024

  // A stream to read from. How much a read returns, and whether it fails, is up to the
  // surroundings.
  class InputStream {
    var remaining: seq<byte>
    var failed: bool

    constructor (data: seq<byte>)
      ensures remaining == data && !failed
    {
      remaining, failed := data, false;
    }

    // May also answer true at the end of the stream.
    method HasBytesAvailable() returns (available: bool)
      ensures remaining != [] ==> available
    {
      available := remaining != [];
      if * { available := true; }
    }

    // At least one byte, if there is one.
    method Read(buffer: array<byte>, maxLength: nat) returns (bytesRead: nat)
      requires 0 < maxLength <= buffer.Length
      modifies this, buffer
      ensures old(failed) ==> failed
      ensures !failed ==> bytesRead <= maxLength && bytesRead <= |old(remaining)|
      ensures !failed ==> buffer[..bytesRead] + remaining == old(remaining)
      ensures !failed ==> (bytesRead == 0 <==> old(remaining) == [])
    {
      if * { failed := true; }
      bytesRead := 0;
      if !failed && remaining != [] {
        bytesRead :| 1 <= bytesRead <= maxLength && bytesRead <= |remaining|;
        for i := 0 to bytesRead
          invariant buffer[..i] == old(remaining)[..i]
          invariant remaining == old(remaining)
        {
          buffer[i] := remaining[i];
        }
        remaining := remaining[bytesRead..];
      }
    }
  }

  // A stream to write to. How much of a write it takes, whether it has space, and
  // whether it fails, is up to the surroundings.
  class OutputStream {
    var written: seq<byte>
    var failed: bool
    // Whether the stream has refused space when there was something to write.
    ghost var refused: bool

    constructor ()
      ensures written == [] && !failed && !refused
    {
      written, failed, refused := [], false, false;
    }

    // Whether the stream has all of the data it was given: it has unless it refused
    // space, and then it is short.
    ghost predicate Took(data: seq<byte>)
      reads this
    {
      if refused then |written| < |data| else written == data
    }

    method HasSpaceAvailable() returns (available: bool)
      modifies this`refused
      ensures refused <==> old(refused) || !available
    {
      if * { available := true; } else { available := false; refused := true; }
    }

    // At least one byte of the buffer.
    method Write(buffer: seq<byte>, maxLength: nat) returns (bytesWritten: nat)
      requires 0 < maxLength <= |buffer|
      modifies this`written, this`failed
      ensures old(failed) ==> failed
      ensures !failed ==> 1 <= bytesWritten <= maxLength && written == old(written) + buffer[..bytesWritten]
    {
      if * { failed := true; }
      bytesWritten :| 1 <= bytesWritten <= maxLength;
      written := written + buffer[..bytesWritten];
    }
  }

  class BodyPart {
    const headers: seq<Header>
    const bodyStream: InputStream
    var hasInitialBoundary: bool
    var hasFinalBoundary: bool

    constructor (headers: seq<Header>, bodyStream: InputStream)
      ensures this.headers == headers && this.bodyStream == bodyStream
      ensures !hasInitialBoundary && !hasFinalBoundary
    {
      this.headers, this.bodyStream := headers, bodyStream;
      hasInitialBoundary, hasFinalBoundary := false, false;
    }

    ghost function Value(): Part
      reads this, bodyStream
    {
      Part(headers, bodyStream.remaining)
    }
  }

  // The first k pieces, joined.
  function Joined(pieces: seq<seq<byte>>, k: nat): seq<byte>
    requires k <= |pieces|
  {
    if k == 0 then [] else Joined(pieces, k - 1) + pieces[k - 1]
  }

  // What each part contributes.
  function Pieces(parts: seq<Part>, boundary: seq<byte>): seq<seq<byte>> {
    seq(|parts|, i requires 0 <= i < |parts| => EncodePart(parts[i], i == 0, i == |parts| - 1, boundary))
  }

  lemma EncodeFromUnfolds(parts: seq<Part>, k: nat, boundary: seq<byte>)
    requires k < |parts|
    ensures EncodeFrom(parts, k, boundary) == Pieces(parts, boundary)[k] + EncodeFrom(parts, k + 1, boundary)
  {
  }

  // The pieces from the k-th on, joined.
  function JoinedFrom(pieces: seq<seq<byte>>, k: nat): seq<byte>
    requires k <= |pieces|
    decreases |pieces| - k
  {
    if k == |pieces| then [] else pieces[k] + JoinedFrom(pieces, k + 1)
  }

  lemma {:induction false} JoinedBoth(pieces: seq<seq<byte>>, k: nat)
    requires k <= |pieces|
    ensures Joined(pieces, k) + JoinedFrom(pieces, k) == JoinedFrom(pieces, 0)
  {
    if k > 0 {
      JoinedBoth(pieces, k - 1);
      Shift(Joined(pieces, k - 1), pieces[k - 1], JoinedFrom(pieces, k));
    }
  }

  lemma {:induction false} EncodedPieces(parts: seq<Part>, k: nat, boundary: seq<byte>)
    requires k <= |parts|
    ensures EncodeFrom(parts, k, boundary) == JoinedFrom(Pieces(parts, boundary), k)
    decreases |parts| - k
  {
    if k < |parts| {
      EncodedPieces(parts, k + 1, boundary);
      EncodeFromUnfolds(parts, k, boundary);
    }
  }

  lemma AllJoined(parts: seq<Part>, boundary: seq<byte>)
    ensures Joined(Pieces(parts, boundary), |parts|) == Encode(parts, boundary)
  {
    EncodedPieces(parts, 0, boundary);
    JoinedBoth(Pieces(parts, boundary), |parts|);
  }

  class MultipartFormData {
    const boundary: seq<byte>
    var bodyParts: seq<BodyPart>
    var bodyPartError: bool

    // A form on which neither encode nor writeEncodedData has been called. No stream is
    // appended twice.
    ghost predicate Valid()
      reads this, bodyParts
    {
      && (forall i, j :: 0 <= i < j < |bodyParts| ==>
          bodyParts[i] != bodyParts[j] && bodyParts[i].bodyStream != bodyParts[j].bodyStream)
      && (forall p :: p in bodyParts ==> !p.hasInitialBoundary && !p.hasFinalBoundary)
    }

    ghost function Streams(): set<InputStream>
      reads this
    {
      set p | p in bodyParts :: p.bodyStream
    }

    ghost function Parts(): seq<Part>
      reads this, bodyParts, Streams()
    {
      seq(|bodyParts|, i requires 0 <= i < |bodyParts| reads this, bodyParts, Streams() => bodyParts[i].Value())
    }

    constructor (boundary: seq<byte>)
      ensures Valid() && Parts() == [] && this.boundary == boundary && !bodyPartError
    {
      this.boundary, bodyParts, bodyPartError := boundary, [], false;
    }

    method Append(bodyStream: InputStream, headers: seq<Header>)
      requires Valid() && bodyStream !in Streams()
      modifies this`bodyParts
      ensures Valid() && Streams() == old(Streams()) + {bodyStream}
      ensures Parts() == old(Parts()) + [Part(headers, bodyStream.remaining)]
    {
      var bodyPart := new BodyPart(headers, bodyStream);
      bodyParts := bodyParts + [bodyPart];
    }

    // Sets the boundary flags of the first and the last part.
    method MarkBoundaries()
      requires Valid()
      modifies bodyParts
      ensures Unread(Pieces(old(Parts()), boundary), 0)
    {
      if bodyParts != [] {
        bodyParts[0].hasInitialBoundary := true;
        bodyParts[|bodyParts| - 1].hasFinalBoundary := true;
      }
      ghost var pieces := Pieces(old(Parts()), boundary);
      forall j | 0 <= j < |bodyParts| ensures IsNext(pieces[j], bodyParts[j]) {
        assert old(Parts())[j] == bodyParts[j].Value();
      }
    }

    // The parts from the k-th on have not been read, and will be encoded as `pieces` says.
    ghost predicate Unread(pieces: seq<seq<byte>>, k: nat)
      reads this, bodyParts, Streams()
    {
      && |pieces| == |bodyParts| && k <= |pieces|
      && (forall i, j :: 0 <= i < j < |bodyParts| ==> bodyParts[i].bodyStream != bodyParts[j].bodyStream)
      && (forall j {:trigger IsNext(pieces[j], bodyParts[j])} :: k <= j < |bodyParts| ==>
           IsNext(pieces[j], bodyParts[j]))
    }

    ghost predicate IsNext(piece: seq<byte>, bodyPart: BodyPart)
      reads bodyPart, bodyPart.bodyStream
    {
      piece == Encoded(bodyPart)
    }

    ghost function Encoded(bodyPart: BodyPart): seq<byte>
      reads bodyPart, bodyPart.bodyStream
    {
      EncodePart(bodyPart.Value(), bodyPart.hasInitialBoundary, bodyPart.hasFinalBoundary, boundary)
    }

    // ------------------------------------------------------------------ in memory

    method EncodeBodyStream(bodyPart: BodyPart) returns (r: Option<seq<byte>>)
      modifies bodyPart.bodyStream
      ensures r.Some? ==> r.value == old(bodyPart.bodyStream.remaining)
      ensures r.None? ==> bodyPart.bodyStream.failed
    {
      var inputStream := bodyPart.bodyStream;
      var encoded := [];
      while true
        invariant encoded + inputStream.remaining == old(inputStream.remaining)
        decreases |inputStream.remaining|
      {
        var available := inputStream.HasBytesAvailable();
        if !available { break; }
        var buffer := new byte[STREAM_BUFFER_SIZE];
        var bytesRead := inputStream.Read(buffer, STREAM_BUFFER_SIZE);
        if inputStream.failed { return None; }
        if bytesRead > 0 {
          encoded := encoded + buffer[..bytesRead];
        } else {
          break;
        }
      }
      r := Some(encoded);
    }

    method EncodeBodyPart(bodyPart: BodyPart) returns (r: Option<seq<byte>>)
      modifies bodyPart.bodyStream
      ensures r.Some? ==> r.value == old(Encoded(bodyPart))
      ensures r.None? ==> bodyPart.bodyStream.failed
    {
      var initialData := BoundaryData(if bodyPart.hasInitialBoundary then Initial else Encapsulated, boundary);
      var body := EncodeBodyStream(bodyPart);
      if body.None? { return None; }
      var encoded := initialData + EncodeHeaders(bodyPart.headers) + body.value;
      if bodyPart.hasFinalBoundary {
        encoded := encoded + BoundaryData(Final, boundary);
      }
      assert encoded == initialData + EncodeHeaders(bodyPart.headers) + body.value
                        + (if bodyPart.hasFinalBoundary then BoundaryData(Final, boundary) else []);
      r := Some(encoded);
    }

    // One round of the loop of encode.
    method EncodeNext(k: nat, encoded: seq<byte>, ghost pieces: seq<seq<byte>>) returns (r: Option<seq<byte>>)
      requires k < |bodyParts| && Unread(pieces, k)
      requires encoded == Joined(pieces, k)
      modifies bodyParts[k].bodyStream
      ensures r.Some? ==> Unread(pieces, k + 1) && r.value == Joined(pieces, k + 1)
      ensures r.None? ==> bodyParts[k].bodyStream.failed
    {
      assert IsNext(pieces[k], bodyParts[k]);
      r := EncodeBodyPart(bodyParts[k]);
      if r.Some? { r := Some(encoded + r.value); }
    }

    // The loop of encode.
    method EncodeMarked(ghost pieces: seq<seq<byte>>) returns (r: Option<seq<byte>>)
      requires Unread(pieces, 0)
      modifies Streams()
      ensures r.Some? ==> r.value == Joined(pieces, |pieces|)
      ensures r.None? ==> AnyFailed()
    {
      r := Some([]);
      for k := 0 to |bodyParts|
        invariant Unread(pieces, k)
        invariant r.Some? && r.value == Joined(pieces, k)
      {
        r := EncodeNext(k, r.value, pieces);
        if r.None? { return; }
      }
    }

    method EncodeForm() returns (r: Option<seq<byte>>)
      requires Valid()
      modifies bodyParts, Streams()
      ensures bodyPartError ==> r.None?
      ensures r.Some? ==> r.value == Encode(old(Parts()), boundary)
      ensures r.None? ==> bodyPartError || AnyFailed()
    {
      if bodyPartError { return None; }
      ghost var parts := Parts();
      MarkBoundaries();
      r := EncodeMarked(Pieces(parts, boundary));
      AllJoined(parts, boundary);
    }

    ghost predicate AnyFailed()
      reads this, bodyParts, Streams()
    {
      exists k :: 0 <= k < |bodyParts| && bodyParts[k].bodyStream.failed
    }

    // --------------------------------------------------------------- to a stream

    // `data` is what the stream was given before. Whatever it takes of each write,
    // nothing is lost unless it refuses space.
    method WriteBuffer(buffer: seq<byte>, out: OutputStream, ghost data: seq<byte>) returns (ok: bool)
      requires out.Took(data)
      modifies out
      ensures ok ==> out.Took(data + buffer)
      ensures !ok ==> out.failed
    {
      var rest := buffer;
      while |rest| > 0
        invariant if out.refused then |out.written| + |rest| < |data| + |buffer|
                  else out.written + rest == data + buffer
        decreases |rest|
      {
        var hasSpace := out.HasSpaceAvailable();
        if !hasSpace {
          return true;
        }
        var bytesWritten := out.Write(rest, |rest|);
        if out.failed { return false; }
        rest := rest[bytesWritten..];
      }
      ok := true;
    }

    method WriteBodyStream(bodyPart: BodyPart, out: OutputStream, ghost data: seq<byte>) returns (ok: bool)
      requires out.Took(data)
      modifies out, bodyPart.bodyStream
      ensures ok ==> out.Took(data + old(bodyPart.bodyStream.remaining))
      ensures !ok ==> out.failed || bodyPart.bodyStream.failed
    {
      var inputStream := bodyPart.bodyStream;
      ghost var done := [];
      while true
        invariant done + inputStream.remaining == old(inputStream.remaining)
        invariant out.Took(data + done)
        decreases |inputStream.remaining|
      {
        var available := inputStream.HasBytesAvailable();
        if !available { break; }
        var buffer := new byte[STREAM_BUFFER_SIZE];
        var bytesRead := inputStream.Read(buffer, STREAM_BUFFER_SIZE);
        if inputStream.failed { return false; }
        if bytesRead > 0 {
          ok := WriteBuffer(buffer[..bytesRead], out, data + done);
          if !ok { return; }
          assert data + (done + buffer[..bytesRead]) == data + done + buffer[..bytesRead];
          done := done + buffer[..bytesRead];
        } else {
          break;
        }
      }
      ok := true;
    }

    // The final boundary, for the last part.
    method WriteFinalBoundary(bodyPart: BodyPart, out: OutputStream, ghost data: seq<byte>) returns (ok: bool)
      requires out.Took(data)
      modifies out
      ensures ok ==> out.Took(data + (if bodyPart.hasFinalBoundary then BoundaryData(Final, boundary) else []))
      ensures !ok ==> out.failed
    {
      ok := true;
      if bodyPart.hasFinalBoundary {
        ok := WriteBuffer(BoundaryData(Final, boundary), out, data);
      } else {
        assert data + [] == data;
      }
    }

    method WriteBodyPart(bodyPart: BodyPart, out: OutputStream, ghost data: seq<byte>) returns (ok: bool)
      requires out.Took(data)
      modifies out, bodyPart.bodyStream
      ensures ok ==> out.Took(data + old(Encoded(bodyPart)))
      ensures !ok ==> out.failed || bodyPart.bodyStream.failed
    {
      var initialData := BoundaryData(if bodyPart.hasInitialBoundary then Initial else Encapsulated, boundary);
      var headerData := EncodeHeaders(bodyPart.headers);
      ghost var body := bodyPart.bodyStream.remaining;
      ok := WriteBuffer(initialData, out, data);
      if !ok { return; }
      ok := WriteBuffer(headerData, out, data + initialData);
      if !ok { return; }
      ok := WriteBodyStream(bodyPart, out, data + initialData + headerData);
      if !ok { return; }
      ok := WriteFinalBoundary(bodyPart, out, data + initialData + headerData + body);
      Shift(data, initialData, headerData);
      Shift(data, initialData + headerData, body);
      ghost var finalData := if bodyPart.hasFinalBoundary then BoundaryData(Final, boundary) else [];
      Shift(data, initialData + headerData + body, finalData);
    }

    // One round of the loop of writeEncodedData.
    method WriteNext(k: nat, out: OutputStream, ghost pieces: seq<seq<byte>>) returns (ok: bool)
      requires k < |bodyParts| && Unread(pieces, k)
      requires out.Took(Joined(pieces, k))
      modifies bodyParts[k].bodyStream, out
      ensures ok ==> Unread(pieces, k + 1) && out.Took(Joined(pieces, k + 1))
      ensures !ok ==> out.failed || bodyParts[k].bodyStream.failed
    {
      assert IsNext(pieces[k], bodyParts[k]);
      assert Joined(pieces, k + 1) == Joined(pieces, k) + pieces[k];
      ok := WriteBodyPart(bodyParts[k], out, Joined(pieces, k));
    }

    // The loop of writeEncodedData.
    method WriteMarked(out: OutputStream, ghost pieces: seq<seq<byte>>) returns (ok: bool)
      requires Unread(pieces, 0) && out.Took([])
      modifies Streams(), out
      ensures ok ==> out.Took(Joined(pieces, |pieces|))
      ensures !ok ==> out.failed || AnyFailed()
    {
      for k := 0 to |bodyParts|
        invariant Unread(pieces, k) && out.Took(Joined(pieces, k))
      {
        ok := WriteNext(k, out, pieces);
        if !ok { return; }
      }
      ok := true;
    }

    // The stream has exactly what encode would have returned, unless an error is
    // reported or it refused space: then bytes are missing, and nothing is reported.
    method WriteEncodedData(out: OutputStream) returns (ok: bool)
      requires Valid() && out.Took([]) && !out.refused
      modifies bodyParts, Streams(), out
      ensures bodyPartError ==> !ok && out.written == []
      ensures ok ==> (out.written == Encode(old(Parts()), boundary) <==> !out.refused)
      ensures !ok ==> bodyPartError || out.failed || AnyFailed()
    {
      if bodyPartError { return false; }
      ghost var parts := Parts();
      MarkBoundaries();
      ok := WriteMarked(out, Pieces(parts, boundary));
      AllJoined(parts, boundary);
    }
  }
}
