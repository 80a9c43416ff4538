// Single values and tags survive encoding and decoding, and skipping a value
// consumes exactly the bytes that were written for it.
module ValueRoundTrip {
  import opened Bits
  import opened Varint
  import opened Descriptor
  import opened Integers
  import opened EncodeSpec
  import opened DecodeSpec
  import opened WellFormed

  lemma {:induction false} LittleEndianRoundTrip(v: nat, n: nat)
    requires v < Shl(1, 8 * n)
    ensures FromLittleEndian(LittleEndian(v, n)) == v
  {
    if n > 0 {
      ShlShl(1, 8 * n - 8, 8);
      ShlEight(Shl(1, 8 * n - 8));
      LittleEndianRoundTrip(v / 256, n - 1);
      assert LittleEndian(v, n)[1..] == LittleEndian(v / 256, n - 1);
    }
  }

  lemma ShlEight(v: nat)
    ensures Shl(v, 8) == 256 * v
  {
    ShlSeven(v, 1);
  }

  lemma {:induction false} UpToNulUnchanged(b: seq<byte>)
    requires 0 !in b
    ensures UpToNul(b) == b
  {
    if b != [] {
      UpToNulUnchanged(b[1..]);
    }
  }

  lemma ReadFront(a: seq<byte>, rest: seq<byte>)
    ensures Read(a + rest, |a|) == Ok(a, rest)
  {
    assert (a + rest)[..|a|] == a && (a + rest)[|a|..] == rest;
  }

  lemma LengthFront(body: seq<byte>, rest: seq<byte>)
    requires |body| < TWO_TO_32
    ensures DecodeVarint32(Delimited(body) + rest) == Ok(|body|, body + rest)
  {
    assert Delimited(body) + rest == EncodeVarint(|body|) + (body + rest);
    Varint32RoundTrip(|body|, body + rest);
  }

  lemma FixedRoundTrip(f: Field, v: Value, rest: seq<byte>)
    requires f.ltype.FIXED32? || f.ltype.FIXED64?
    requires SafeScalar(f, v)
    ensures EncodeScalar(f, v).Some?
    ensures DecodeScalar(f, EncodeScalar(f, v).value + rest) == Ok(v, rest)
  {
    var n := if f.ltype.FIXED32? then 4 else 8;
    PowersOfTwo();
    LittleEndianRoundTrip(v.i, n);
    ReadFront(LittleEndian(v.i, n), rest);
  }

  lemma SignedFieldRoundTrip(f: Field, v: Value, rest: seq<byte>)
    requires f.ltype.VARINT? && SafeScalar(f, v)
    ensures EncodeScalar(f, v).Some?
    ensures DecodeScalar(f, EncodeScalar(f, v).value + rest) == Ok(v, rest)
  {
    Varint64RoundTrip(VarintPayload(v.i), rest);
    SignedRoundTrip(v.i, f.dataSize);
  }

  lemma UnsignedFieldRoundTrip(f: Field, v: Value, rest: seq<byte>)
    requires f.ltype.UVARINT? && SafeScalar(f, v)
    ensures EncodeScalar(f, v).Some?
    ensures DecodeScalar(f, EncodeScalar(f, v).value + rest) == Ok(v, rest)
  {
    Varint64RoundTrip(v.i, rest);
    NarrowUnsignedExact(v.i, f.dataSize, v.i);
  }

  lemma ZigZagFieldRoundTrip(f: Field, v: Value, rest: seq<byte>)
    requires f.ltype.SVARINT? && SafeScalar(f, v)
    ensures EncodeScalar(f, v).Some?
    ensures DecodeScalar(f, EncodeScalar(f, v).value + rest) == Ok(v, rest)
  {
    Varint64RoundTrip(ZigZag(v.i), rest);
    ZigZagRoundTrip(v.i, f.dataSize);
  }

  lemma BlockRoundTrip(f: Field, v: Value, rest: seq<byte>)
    requires f.ltype.BYTES? || f.ltype.STRING? || f.ltype.FIXED_LENGTH_BYTES?
    requires SafeScalar(f, v) && f.dataSize <= PB_SIZE_MAX
    ensures EncodeScalar(f, v).Some?
    ensures DecodeScalar(f, EncodeScalar(f, v).value + rest) == Ok(v, rest)
  {
    LengthFront(v.data, rest);
    ReadFront(v.data, rest);
    if f.ltype.STRING? {
      UpToNulUnchanged(v.data);
    } else if f.ltype.FIXED_LENGTH_BYTES? && v.data == [] {
      assert v.data == Zeros(0);
    }
  }

  // Every value that is not a submessage.
  lemma ScalarRoundTrip(f: Field, v: Value, rest: seq<byte>)
    requires SafeScalar(f, v) && f.dataSize <= PB_SIZE_MAX
    ensures EncodeScalar(f, v).Some?
    ensures DecodeScalar(f, EncodeScalar(f, v).value + rest) == Ok(v, rest)
  {
    match f.ltype
    case BOOL => Varint32RoundTrip(if v.b then 1 else 0, rest);
    case VARINT => SignedFieldRoundTrip(f, v, rest);
    case UVARINT => UnsignedFieldRoundTrip(f, v, rest);
    case SVARINT => ZigZagFieldRoundTrip(f, v, rest);
    case FIXED32 | FIXED64 => FixedRoundTrip(f, v, rest);
    case BYTES | STRING | FIXED_LENGTH_BYTES => BlockRoundTrip(f, v, rest);
  }

  lemma TagRoundTrip(wireType: nat, tag: nat, rest: seq<byte>)
    requires 0 < tag < 0x2000_0000 && wireType < 8
    ensures DecodeTag(EncodeTag(wireType, tag) + rest) == Tag(tag, wireType, rest)
  {
    Varint32RoundTrip(tag * 8 + wireType, rest);
  }

  lemma SkipDelimited(body: seq<byte>, rest: seq<byte>)
    requires |body| < TWO_TO_32
    ensures ReadDelimited(Delimited(body) + rest) == Ok(body, rest)
    ensures SkipField(WT_STRING, Delimited(body) + rest) == Ok((), rest)
  {
    DelimitedRoundTrip(body, rest);
  }

  // An unknown field is skipped along with exactly its payload.
  lemma SkipValue(f: Field, v: Value, rest: seq<byte>)
    requires EncodeValue(f, v).Some? && |EncodeValue(f, v).value| < TWO_TO_32
    ensures SkipField(WireType(f.ltype), EncodeValue(f, v).value + rest) == Ok((), rest)
  {
    match f.ltype
    case BOOL => SkipVarintEncoded(if v.b then 1 else 0, rest);
    case VARINT => SkipVarintEncoded(VarintPayload(v.i), rest);
    case UVARINT => SkipVarintEncoded(v.i, rest);
    case SVARINT => SkipVarintEncoded(ZigZag(v.i), rest);
    case FIXED32 => ReadFront(LittleEndian(v.i, 4), rest);
    case FIXED64 => ReadFront(LittleEndian(v.i, 8), rest);
    case BYTES | STRING | FIXED_LENGTH_BYTES => SkipDelimited(v.data, rest);
    case SUBMESSAGE(fields) => SkipDelimited(Encode(fields, v.m).value, rest);
  }
}
