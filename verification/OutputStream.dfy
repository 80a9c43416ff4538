// pb_ostream_t: a stream into a memory buffer, or one that only counts bytes.
module OutputStream {
  import opened Wrappers
  import opened Bits
  import opened Varint
  import opened Descriptor
  import opened Integers
  import opened EncodeSpec

  // A stream and its buffer at one moment.
  datatype Snapshot = Snapshot(sizing: bool, buffer: seq<byte>, state: nat, maxSize: nat, bytesWritten: nat) {
    // Where the stream has to stop in the buffer.
    function Limit(): int {
      state + maxSize - bytesWritten
    }

    predicate Valid() {
      !sizing ==> bytesWritten <= maxSize && Limit() <= |buffer|
    }
  }

  // What an encoding method does to a stream, where `bytes` is what its
  // specification says, or None for the error return.  A sizing stream counts the
  // bytes.  A real stream receives them, and succeeds exactly if they fit; in any
  // case it writes nothing outside its own part of the buffer.
  ghost predicate Emits(before: Snapshot, after: Snapshot, bytes: Bytes, ok: bool) {
    && before.Valid() && after.Valid()
    && after.sizing == before.sizing && after.maxSize == before.maxSize && |after.buffer| == |before.buffer|
    && if before.sizing then
         && after.buffer == before.buffer && after.state == before.state
         && (ok <==> bytes.Some?)
         && (ok ==> after.bytesWritten == before.bytesWritten + |bytes.value|)
       else
         && (ok <==> bytes.Some? && before.bytesWritten + |bytes.value| <= before.maxSize)
         && before.bytesWritten <= after.bytesWritten && after.Limit() == before.Limit()
         && (ok ==> after.bytesWritten == before.bytesWritten + |bytes.value|)
         && (ok ==> after.buffer[before.state..after.state] == bytes.value)
         && after.buffer[..before.state] == before.buffer[..before.state]
         && after.buffer[before.Limit()..] == before.buffer[before.Limit()..]
  }

  lemma EmitsNothing(a: Snapshot)
    requires a.Valid()
    ensures Emits(a, a, Some([]), true)
  {
  }

  // Two steps, the second taken if the first succeeds.
  lemma EmitsBoth(a: Snapshot, b: Snapshot, c: Snapshot, x: Bytes, y: Bytes, ok: bool)
    requires Emits(a, b, x, true) && Emits(b, c, y, ok)
    ensures Emits(a, c, Cat(x, y), ok)
  {
    if !a.sizing {
      assert c.buffer[..a.state] == c.buffer[..b.state][..a.state];
      assert c.buffer[a.Limit()..] == c.buffer[b.Limit()..];
      assert b.buffer[..a.state] == b.buffer[..b.state][..a.state];
      if ok {
        assert c.buffer[a.state..b.state] == c.buffer[..b.state][a.state..];
        assert b.buffer[a.state..b.state] == b.buffer[..b.state][a.state..];
        assert c.buffer[a.state..c.state] == c.buffer[a.state..b.state] + c.buffer[b.state..c.state];
      }
    }
  }

  // A step that fails fails whatever would have come next.
  lemma EmitsFailed(a: Snapshot, b: Snapshot, x: Bytes, y: Bytes)
    requires Emits(a, b, x, false)
    ensures Emits(a, b, Cat(x, y), false)
  {
  }

  // Giving up after a step that succeeded.
  lemma EmitsAborted(a: Snapshot, b: Snapshot, x: Bytes)
    requires Emits(a, b, x, true)
    ensures Emits(a, b, None, false)
  {
  }

  lemma CatEmpty(x: Bytes)
    ensures Cat(Some([]), x) == x
  {
    if x.Some? {
      assert [] + x.value == x.value;
    }
  }

  lemma CatAssociative(x: seq<byte>, y: Bytes, z: Bytes)
    ensures Cat(Cat(Some(x), y), z) == Cat(Some(x), Cat(y, z))
  {
    if y.Some? && z.Some? {
      assert x + y.value + z.value == x + (y.value + z.value);
    }
  }

  // A round of an encoding loop: `written` has been emitted, `bytes` is the step
  // from b to c, and `rest` is still to come.
  lemma EmitsNext(a: Snapshot, b: Snapshot, c: Snapshot, written: seq<byte>, bytes: Bytes, rest: Bytes, ok: bool)
    requires Emits(a, b, Some(written), true) && Emits(b, c, bytes, ok)
    ensures ok ==>
      && bytes.Some? && Emits(a, c, Some(written + bytes.value), true)
      && Cat(Some(written + bytes.value), rest) == Cat(Some(written), Cat(bytes, rest))
    ensures !ok ==> Emits(a, c, Cat(Some(written), Cat(bytes, rest)), false)
  {
    EmitsBoth(a, b, c, Some(written), bytes, ok);
    CatAssociative(written, bytes, rest);
    if !ok {
      EmitsFailed(a, c, Cat(Some(written), bytes), rest);
    }
  }

  class OStream {
    const sizing: bool          // callback == NULL
    const buffer: array<byte>
    const maxSize: nat
    var state: nat
    var bytesWritten: nat

    ghost function Now(): Snapshot
      reads this, buffer
    {
      Snapshot(sizing, buffer[..], state, maxSize, bytesWritten)
    }

    ghost predicate Valid()
      reads this, buffer
    {
      Now().Valid()
    }

    // pb_ostream_from_buffer
    constructor FromBuffer(buf: array<byte>, size: nat)
      requires size <= buf.Length
      ensures Valid() && !sizing && buffer == buf && maxSize == size && state == 0 && bytesWritten == 0
    {
      sizing, buffer, state, maxSize, bytesWritten := false, buf, 0, size, 0;
    }

    // PB_OSTREAM_SIZING
    constructor Sizing()
      ensures Valid() && sizing && bytesWritten == 0 && fresh(buffer)
    {
      sizing, buffer, state, maxSize, bytesWritten := true, new byte[0], 0, 0, 0;
    }

    // A substream that continues a real stream for at most `size` bytes.
    constructor Sub(s: OStream, size: nat)
      requires s.Valid() && !s.sizing && s.bytesWritten + size <= s.maxSize
      ensures Valid() && !sizing && buffer == s.buffer && state == s.state && maxSize == size && bytesWritten == 0
    {
      sizing, buffer, state, maxSize, bytesWritten := false, s.buffer, s.state, size, 0;
    }

    // buf_write
    method BufWrite(data: seq<byte>)
      requires state + |data| <= buffer.Length
      modifies this`state, buffer
      ensures state == old(state) + |data|
      ensures buffer[..] == old(buffer[..state]) + data + old(buffer[state + |data|..])
    {
      var dest := state;
      state := dest + |data|;
      for i := 0 to |data|
        invariant state == dest + |data|
        invariant buffer[..] == old(buffer[..state]) + data[..i] + old(buffer[state + i..])
      {
        buffer[dest + i] := data[i];
      }
    }

    // pb_write
    method Write(data: seq<byte>) returns (ok: bool)
      requires Valid()
      modifies this, buffer
      ensures Valid() && Emits(old(Now()), Now(), Some(data), ok)
    {
      if |data| > 0 && !sizing {
        if bytesWritten + |data| > maxSize {
          return false;
        }
        BufWrite(data);
      }
      bytesWritten := bytesWritten + |data|;
      ok := true;
    }

    // pb_write with a NULL buffer, to a sizing stream
    method WriteSize(count: nat) returns (ok: bool)
      requires Valid() && sizing
      modifies this
      ensures Valid() && ok && bytesWritten == old(bytesWritten) + count && state == old(state)
    {
      bytesWritten := bytesWritten + count;
      ok := true;
    }

    // pb_encode_varint, with its ten-byte buffer
    method EncodeVarint(value: nat) returns (ok: bool)
      requires Valid() && value < TWO_TO_64
      modifies this, buffer
      ensures Valid() && Emits(old(Now()), Now(), Some(Varint.EncodeVarint(value)), ok)
    {
      if value <= 0x7F {
        ok := Write([value]);
        return;
      }
      EncodeVarintFitsBuffer(value);
      ghost var bytes := Varint.EncodeVarint(value);
      var digits := new byte[10];
      var i := 0;
      var v := value;
      while v != 0
        invariant i <= 10 && fresh(digits) && unchanged(this) && unchanged(buffer)
        invariant if v != 0 then bytes == digits[..i] + Varint.EncodeVarint(v)
                  else i > 0 && digits[i - 1] >= 128 && bytes == digits[..i - 1] + [digits[i - 1] - 128]
        decreases v
      {
        ghost var before := digits[..i];
        digits[i] := v % 128 + 128;
        assert digits[..i] == before;
        v := v / 128;
        i := i + 1;
        assert digits[..i] == before + [digits[i - 1]];
      }
      digits[i - 1] := digits[i - 1] - 128;
      assert digits[..i] == bytes;
      ok := Write(digits[..i]);
    }

    // pb_encode_svarint
    method EncodeSvarint(value: int) returns (ok: bool)
      requires Valid()
      modifies this, buffer
      ensures Valid() && Emits(old(Now()), Now(), Some(Varint.EncodeVarint(ZigZag(value))), ok)
    {
      ok := EncodeVarint(ZigZag(value));
    }

    // pb_encode_fixed32
    method EncodeFixed32(val: nat) returns (ok: bool)
      requires Valid() && val < TWO_TO_32
      modifies this, buffer
      ensures Valid() && Emits(old(Now()), Now(), Some(LittleEndian(val, 4)), ok)
    {
      FourDigits(val, 4);
      ok := Write(WordBytes(val));
    }

    // pb_encode_fixed64
    method EncodeFixed64(val: nat) returns (ok: bool)
      requires Valid() && val < TWO_TO_64
      modifies this, buffer
      ensures Valid() && Emits(old(Now()), Now(), Some(LittleEndian(val, 8)), ok)
    {
      FourDigits(val, 8);
      FourDigits(val / 0x1_0000_0000, 4);
      ok := Write(WordBytes(val) + WordBytes(val / 0x1_0000_0000));
    }

    // pb_encode_tag
    method EncodeTag(wireType: nat, fieldNumber: nat) returns (ok: bool)
      requires Valid() && wireType < 8 && fieldNumber < 0x2000_0000
      modifies this, buffer
      ensures Valid() && Emits(old(Now()), Now(), Some(EncodeSpec.EncodeTag(wireType, fieldNumber)), ok)
    {
      ok := EncodeVarint(fieldNumber * 8 + wireType);
    }

    // pb_encode_tag_for_field
    method EncodeTagForField(f: Field) returns (ok: bool)
      requires Valid() && f.tag < 0x2000_0000
      modifies this, buffer
      ensures Valid() && Emits(old(Now()), Now(), Some(TagFor(f)), ok)
    {
      var wireType;
      match f.ltype {
        case BOOL | VARINT | UVARINT | SVARINT => wireType := WT_VARINT;
        case FIXED32 => wireType := WT_32BIT;
        case FIXED64 => wireType := WT_64BIT;
        case BYTES | STRING | SUBMESSAGE(_) | FIXED_LENGTH_BYTES => wireType := WT_STRING;
      }
      ok := EncodeTag(wireType, f.tag);
    }

    // pb_encode_string
    method EncodeString(data: seq<byte>) returns (ok: bool)
      requires Valid() && |data| < TWO_TO_64
      modifies this, buffer
      ensures Valid() && Emits(old(Now()), Now(), Some(Delimited(data)), ok)
    {
      ok := EncodeVarint(|data|);
      ghost var middle := Now();
      if !ok {
        EmitsFailed(old(Now()), middle, Some(Varint.EncodeVarint(|data|)), Some(data));
        return;
      }
      ok := Write(data);
      EmitsBoth(old(Now()), middle, Now(), Some(Varint.EncodeVarint(|data|)), Some(data), ok);
    }
  }
}
