// pb_istream_t over a memory buffer, and the decoding helpers that work on it.
module InputStream {
  import opened Bits
  import opened Varint
  import opened Descriptor
  import opened DecodeSpec

  // The result of a decoding method is that of its specification: the error
  // return, or the value with the stream left at the rest of the bytes.
  ghost predicate Gives<T>(spec: Parsed<T>, ok: bool, value: T, rest: seq<byte>) {
    match spec
    case Ok(v, r) => ok && value == v && rest == r
    case Err => !ok
  }

  class IStream {
    const source: seq<byte>
    var state: nat
    var bytesLeft: nat

    ghost predicate Valid()
      reads this
    {
      End() <= |source|
    }

    // Where the stream ends in the buffer.  A successful call that advances `state`
    // by exactly the drop in `bytesLeft` leaves it where it was.
    ghost function End(): nat
      reads this
    {
      state + bytesLeft
    }

    // The bytes that can still be read.
    ghost function Remaining(): (b: seq<byte>)
      requires Valid()
      reads this
      ensures |b| == bytesLeft
    {
      source[state..End()]
    }

    // pb_istream_from_buffer
    constructor (buffer: seq<byte>)
      ensures Valid() && source == buffer && Remaining() == buffer
    {
      source, state, bytesLeft := buffer, 0, |buffer|;
    }

    // A copy of a stream, for use as a substream.
    constructor Copy(s: IStream)
      ensures source == s.source && state == s.state && bytesLeft == s.bytesLeft
    {
      source, state, bytesLeft := s.source, s.state, s.bytesLeft;
    }

    // buf_read
    method BufRead(count: nat) returns (data: seq<byte>)
      requires state + count <= |source|
      modifies `state
      ensures state == old(state) + count && data == source[old(state)..state]
    {
      var from := state;
      state := from + count;
      data := [];
      for i := 0 to count
        invariant data == source[from..from + i]
      {
        data := data + [source[from + i]];
      }
    }

    // pb_read
    method Read(count: nat) returns (ok: bool, data: seq<byte>)
      requires Valid()
      modifies this
      ensures Valid()
      ensures Gives(Varint.Read(old(Remaining()), count), ok, data, Remaining())
      ensures End() == old(End())
    {
      if count == 0 {
        return true, [];
      }
      if bytesLeft < count {
        return false, [];
      }
      assert Remaining()[..count] == source[state..state + count];
      data := BufRead(count);
      bytesLeft := bytesLeft - count;
      ok := true;
    }

    // pb_readbyte
    method ReadByte() returns (ok: bool, b: byte)
      requires Valid()
      modifies this
      ensures Valid() && End() == old(End())
      ensures ok <==> old(Remaining()) != []
      ensures ok ==> b == old(Remaining())[0] && Remaining() == old(Remaining())[1..]
      ensures !ok ==> bytesLeft == 0
    {
      if bytesLeft == 0 {
        return false, 0;
      }
      b := source[state];
      state := state + 1;
      bytesLeft := bytesLeft - 1;
      ok := true;
    }

    // pb_decode_varint32_eof; eof is set when there was no byte at all
    method DecodeVarint32Eof() returns (ok: bool, dest: uint32, eof: bool)
      requires Valid()
      modifies this
      ensures Valid() && End() == old(End())
      ensures Gives(Varint.DecodeVarint32(old(Remaining())), ok, dest, Remaining())
      ensures eof <==> old(Remaining()) == []
    {
      var c;
      ok, c := ReadByte();
      if !ok {
        return false, 0, true;
      }
      if c < 128 {
        return true, c, false;
      }
      var bitpos: byte := 7;
      var result: uint32 := c % 128;
      eof := false;
      ghost var spec := Varint.DecodeVarint32(old(Remaining()));
      while true
        invariant Valid() && End() == old(End())
        invariant spec == Varint32From(Remaining(), result, bitpos)
        decreases bytesLeft
      {
        ok, c := ReadByte();
        if !ok {
          return false, 0, false;
        }
        if bitpos >= 32 {
          var signExtension := if bitpos < 63 then 0xFF else 0x01;
          if c % 128 != 0 && (result < TWO_TO_31 || c != signExtension) {
            return false, 0, false;
          }
        } else {
          result := BitOr32(result, Shl(c % 128, bitpos) % 0x1_0000_0000);
        }
        bitpos := NextBitpos(bitpos);
        if c < 128 {
          if bitpos == 35 && c >= 16 {
            return false, 0, false;
          }
          return true, result, false;
        }
      }
    }

    // pb_decode_varint32
    method DecodeVarint32() returns (ok: bool, dest: uint32)
      requires Valid()
      modifies this
      ensures Valid() && End() == old(End())
      ensures Gives(Varint.DecodeVarint32(old(Remaining())), ok, dest, Remaining())
    {
      var eof;
      ok, dest, eof := DecodeVarint32Eof();
    }

    // pb_decode_varint
    method DecodeVarint() returns (ok: bool, dest: uint64)
      requires Valid()
      modifies this
      ensures Valid() && End() == old(End())
      ensures Gives(DecodeVarint64(old(Remaining())), ok, dest, Remaining())
    {
      var bitpos := 0;
      var result: uint64 := 0;
      ghost var spec := DecodeVarint64(old(Remaining()));
      while true
        invariant Valid() && End() == old(End()) && bitpos <= 70
        invariant spec == Varint64From(Remaining(), result, bitpos)
        decreases 70 - bitpos
      {
        if bitpos >= 64 {
          return false, 0;
        }
        var c;
        ok, c := ReadByte();
        if !ok {
          return false, 0;
        }
        result := BitOr64(result, Shl(c % 128, bitpos) % 0x1_0000_0000_0000_0000);
        bitpos := bitpos + 7;
        if c < 128 {
          return true, result;
        }
      }
    }

    // pb_skip_varint
    method SkipVarint() returns (ok: bool)
      requires Valid()
      modifies this
      ensures Valid() && End() == old(End())
      ensures Gives(Varint.SkipVarint(old(Remaining())), ok, (), Remaining())
    {
      ghost var spec := Varint.SkipVarint(old(Remaining()));
      while true
        invariant Valid() && End() == old(End())
        invariant spec == Varint.SkipVarint(Remaining())
        decreases bytesLeft
      {
        var data;
        ok, data := Read(1);
        if !ok {
          return false;
        }
        if data[0] < 128 {
          return true;
        }
      }
    }

    // pb_skip_string
    method SkipString() returns (ok: bool)
      requires Valid()
      modifies this
      ensures Valid() && End() == old(End())
      ensures Gives(DecodeSpec.SkipField(WT_STRING, old(Remaining())), ok, (), Remaining())
    {
      var length;
      ok, length := DecodeVarint32();
      if !ok {
        return false;
      }
      var data;
      ok, data := Read(length);
    }

    // pb_skip_field
    method SkipField(wireType: nat) returns (ok: bool)
      requires Valid()
      modifies this
      ensures Valid() && End() == old(End())
      ensures Gives(DecodeSpec.SkipField(wireType, old(Remaining())), ok, (), Remaining())
    {
      var data;
      if wireType == WT_VARINT {
        ok := SkipVarint();
      } else if wireType == WT_64BIT {
        ok, data := Read(8);
      } else if wireType == WT_STRING {
        ok := SkipString();
      } else if wireType == WT_32BIT {
        ok, data := Read(4);
      } else {
        ok := false;
      }
    }

    // pb_decode_tag
    method DecodeTag() returns (ok: bool, wireType: nat, tag: nat, eof: bool)
      requires Valid() && bytesLeft > 0
      modifies this
      ensures Valid() && End() == old(End())
      ensures match DecodeSpec.DecodeTag(old(Remaining()))
        case BadTag => !ok && !eof
        case Stop(rest) => !ok && eof && Remaining() == rest
        case Tag(t, w, rest) => ok && !eof && tag == t && wireType == w && Remaining() == rest
    {
      var temp;
      ok, temp, eof := DecodeVarint32Eof();
      if !ok {
        return false, 0, 0, eof;
      }
      if temp == 0 {
        return false, 0, 0, true;
      }
      tag, wireType := temp / 8, temp % 8;
    }

    // pb_make_string_substream.  The substream covers the declared length; this
    // stream's bytes_left already excludes it, but its state does not move yet.
    method MakeSubstream() returns (ok: bool, sub: IStream)
      requires Valid()
      modifies this
      ensures Valid() && End() <= old(End())
      ensures ok <==> ReadDelimited(old(Remaining())).Ok?
      ensures sub.Valid() && fresh(sub)
      ensures ok ==>
        var r := ReadDelimited(old(Remaining()));
        && sub.Remaining() == r.value && sub.source == source
        && sub.state == state && bytesLeft == |r.rest| < old(bytesLeft)
        && sub.End() + bytesLeft == old(End()) && r.rest == source[sub.End()..old(End())]
    {
      var size;
      ok, size := DecodeVarint32();
      if !ok {
        sub := new IStream([]);
        return;
      }
      ghost var rest := Remaining();
      sub := new IStream.Copy(this);
      if sub.bytesLeft < size {
        return false, sub;
      }
      sub.bytesLeft := size;
      bytesLeft := bytesLeft - size;
      assert sub.Remaining() == rest[..size];
      assert rest[size..] == source[sub.End()..End() + size];
    }

    // pb_close_string_substream: skip what the inner decoder left over, so that
    // this stream goes on right behind the declared length.
    method CloseSubstream(sub: IStream) returns (ok: bool)
      requires Valid() && sub.Valid() && sub != this && sub.source == source
      requires sub.End() + bytesLeft <= |source|
      modifies this, sub
      ensures ok && Valid()
      ensures state == old(sub.End()) && bytesLeft == old(bytesLeft)
    {
      if sub.bytesLeft > 0 {
        var data;
        ok, data := sub.Read(sub.bytesLeft);
        if !ok {
          return false;
        }
      }
      state := sub.state;
      ok := true;
    }
  }
}
