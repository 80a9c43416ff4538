// Decoding looks at no byte behind the ones it consumes: what is read from `b`
// is read in the same way from `b + t`.
module Extension {
  import opened Wrappers
  import opened Bits
  import opened Varint
  import opened Descriptor
  import opened DecodeSpec

  lemma Behind(b: seq<byte>, t: seq<byte>)
    requires b != []
    ensures (b + t)[0] == b[0] && (b + t)[1..] == b[1..] + t
  {
  }

  lemma {:induction false} Varint64Extends(b: seq<byte>, t: seq<byte>, result: uint64, bitpos: nat)
    requires Varint64From(b, result, bitpos).Ok?
    ensures var r := Varint64From(b, result, bitpos); Varint64From(b + t, result, bitpos) == Ok(r.value, r.rest + t)
    decreases |b|
  {
    Behind(b, t);
    if b[0] >= 128 {
      Varint64Extends(b[1..], t, BitOr64(result, Shl(b[0] % 128, bitpos) % 0x1_0000_0000_0000_0000), bitpos + 7);
    }
  }

  lemma {:induction false} Varint32FromExtends(b: seq<byte>, t: seq<byte>, result: uint32, bitpos: byte)
    requires Varint32From(b, result, bitpos).Ok?
    ensures var r := Varint32From(b, result, bitpos); Varint32From(b + t, result, bitpos) == Ok(r.value, r.rest + t)
    decreases |b|
  {
    Behind(b, t);
    if b[0] >= 128 {
      Varint32FromExtends(b[1..], t, AbsorbByte(b[0], result, bitpos).value, NextBitpos(bitpos));
    }
  }

  lemma Varint32Extends(b: seq<byte>, t: seq<byte>)
    requires DecodeVarint32(b).Ok?
    ensures var r := DecodeVarint32(b); DecodeVarint32(b + t) == Ok(r.value, r.rest + t)
  {
    Behind(b, t);
    if b[0] >= 128 {
      Varint32FromExtends(b[1..], t, b[0] % 128, 7);
    }
  }

  lemma {:induction false} SkipVarintExtends(b: seq<byte>, t: seq<byte>)
    requires SkipVarint(b).Ok?
    ensures SkipVarint(b + t) == Ok((), SkipVarint(b).rest + t)
    decreases |b|
  {
    Behind(b, t);
    if b[0] >= 128 {
      SkipVarintExtends(b[1..], t);
    }
  }

  lemma ReadExtends(b: seq<byte>, t: seq<byte>, n: nat)
    requires Read(b, n).Ok?
    ensures Read(b + t, n) == Ok(Read(b, n).value, Read(b, n).rest + t)
  {
    assert (b + t)[..n] == b[..n];
    assert (b + t)[n..] == b[n..] + t;
  }

  lemma DelimitedExtends(b: seq<byte>, t: seq<byte>)
    requires ReadDelimited(b).Ok?
    ensures ReadDelimited(b + t) == Ok(ReadDelimited(b).value, ReadDelimited(b).rest + t)
  {
    Varint32Extends(b, t);
    var r := DecodeVarint32(b);
    ReadExtends(r.rest, t, r.value);
  }

  lemma SkipFieldExtends(wireType: nat, b: seq<byte>, t: seq<byte>)
    requires SkipField(wireType, b).Ok?
    ensures SkipField(wireType, b + t) == Ok((), SkipField(wireType, b).rest + t)
  {
    if wireType == WT_VARINT {
      SkipVarintExtends(b, t);
    } else if wireType == WT_64BIT {
      ReadExtends(b, t, 8);
    } else if wireType == WT_STRING {
      DelimitedExtends(b, t);
    } else {
      ReadExtends(b, t, 4);
    }
  }

  lemma TagExtends(b: seq<byte>, t: seq<byte>)
    requires !DecodeTag(b).BadTag?
    ensures DecodeTag(b + t) ==
      match DecodeTag(b) case Tag(tag, wireType, rest) => Tag(tag, wireType, rest + t) case Stop(rest) => Stop(rest + t)
  {
    Varint32Extends(b, t);
  }

  lemma BlockExtends(f: Field, b: seq<byte>, t: seq<byte>)
    requires f.ltype.BYTES? || f.ltype.STRING? || f.ltype.FIXED_LENGTH_BYTES?
    requires DecodeScalar(f, b).Ok?
    ensures DecodeScalar(f, b + t) == Ok(DecodeScalar(f, b).value, DecodeScalar(f, b).rest + t)
  {
    Varint32Extends(b, t);
    var r := DecodeVarint32(b);
    if Read(r.rest, r.value).Ok? {
      ReadExtends(r.rest, t, r.value);
    }
  }

  lemma ScalarExtends(f: Field, b: seq<byte>, t: seq<byte>)
    requires DecodeScalar(f, b).Ok?
    ensures DecodeScalar(f, b + t) == Ok(DecodeScalar(f, b).value, DecodeScalar(f, b).rest + t)
  {
    match f.ltype
    case BOOL => Varint32Extends(b, t);
    case VARINT | UVARINT | SVARINT => Varint64Extends(b, t, 0, 0);
    case FIXED32 => ReadExtends(b, t, 4);
    case FIXED64 => ReadExtends(b, t, 8);
    case BYTES | STRING | FIXED_LENGTH_BYTES => BlockExtends(f, b, t);
  }

  lemma ValueExtends(f: Field, current: Value, b: seq<byte>, t: seq<byte>)
    requires DecodeValue(f, current, b).Ok?
    ensures var r := DecodeValue(f, current, b); DecodeValue(f, current, b + t) == Ok(r.value, r.rest + t)
  {
    if f.ltype.SUBMESSAGE? {
      DelimitedExtends(b, t);
    } else {
      ScalarExtends(f, b, t);
    }
  }

  lemma EntryExtends(f: Field, a: ArrayState, wireType: nat, b: seq<byte>, t: seq<byte>)
    requires DecodeEntry(f, a, wireType, b).Ok?
    ensures var r := DecodeEntry(f, a, wireType, b); DecodeEntry(f, a, wireType, b + t) == Ok(r.value, r.rest + t)
  {
    if wireType == WT_STRING && Packable(f.ltype) {
      DelimitedExtends(b, t);
    } else {
      ValueExtends(f, ZeroValue(f), b, t);
    }
  }

  lemma SingleExtends(f: Field, slot: Slot, b: seq<byte>, t: seq<byte>)
    requires DecodeSingle(f, slot, b).Ok?
    ensures var r := DecodeSingle(f, slot, b); DecodeSingle(f, slot, b + t) == Ok(r.value, r.rest + t)
  {
    match f.htype
    case REQUIRED => ValueExtends(f, slot.v, b, t);
    case OPTIONAL => ValueExtends(f, if HasFlag(f) then slot.content else slot.v, b, t);
    case ONEOF => ValueExtends(f, DefaultValue(f), b, t);
  }

  lemma FieldExtends(d: seq<Field>, st: LoopState, i: nat, wireType: nat, b: seq<byte>, t: seq<byte>)
    requires i < |d| && DecodeField(d, st, i, wireType, b).Next?
    ensures var r := DecodeField(d, st, i, wireType, b);
      DecodeField(d, st, i, wireType, b + t) == Next(r.st, r.rest + t)
  {
    var f := d[i];
    var slot := st.m[f.member];
    if f.htype.REPEATED? {
      var count := if !FixedCount(f) then |slot.items| else if st.fixedField == Some(i) then st.fixedCount else 0;
      EntryExtends(f, ArrayState(slot.items, count), wireType, b, t);
    } else {
      SingleExtends(f, slot, b, t);
    }
  }

  // One round of the message loop.
  lemma RecordExtends(d: seq<Field>, st: LoopState, b: seq<byte>, t: seq<byte>)
    requires DecodeRecord(d, st, b).Next?
    ensures var r := DecodeRecord(d, st, b); DecodeRecord(d, st, b + t) == Next(r.st, r.rest + t)
  {
    TagExtends(b, t);
    var tag := DecodeTag(b);
    match FindTag(d, tag.tag) {
      case Some(i) => FieldExtends(d, st, i, tag.wireType, tag.rest, t);
      case None =>
        if d == [] && tag.tag == 0 {
          Varint32Extends(tag.rest, t);
        } else {
          SkipFieldExtends(tag.wireType, tag.rest, t);
        }
    }
  }

  // A loop that used up its bytes goes on with the bytes behind them.
  lemma {:induction false} LoopExtends(d: seq<Field>, st: LoopState, b: seq<byte>, t: seq<byte>)
    requires DecodeLoop(d, st, b).Done?
    ensures DecodeLoop(d, st, b + t) == DecodeLoop(d, DecodeLoop(d, st, b).st, t)
    decreases |b|
  {
    if b == [] {
      assert b + t == t;
    } else {
      RecordExtends(d, st, b, t);
      var step := DecodeRecord(d, st, b);
      LoopExtends(d, step.st, step.rest, t);
    }
  }
}
