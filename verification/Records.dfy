// How the decoding loop treats the records pb_encode writes for one field.
module Records {
  import opened Wrappers
  import opened Bits
  import opened Varint
  import opened Descriptor
  import opened EncodeSpec
  import opened DecodeSpec
  import opened WellFormed
  import opened ValueRoundTrip

  // ------------------------------------------------------- every value encodes

  lemma {:induction false} ValueEncodes(f: Field, v: Value)
    requires WellFormedField(f) && SafeValue(f, v) && CompleteValue(f, v)
    ensures EncodeValue(f, v).Some?
    decreases f, 0
  {
    match f.ltype
    case SUBMESSAGE(fields) => MessageEncodes(fields, v.m, 0);
    case _ => ScalarRoundTrip(f, v, []);
  }

  lemma {:induction false} PackedEncodes(f: Field, items: seq<Value>)
    requires f.dataSize <= PB_SIZE_MAX && forall v :: v in items ==> SafeScalar(f, v)
    ensures PackedItems(f, items).Some?
  {
    if items != [] {
      ScalarRoundTrip(f, items[0], []);
      PackedEncodes(f, items[1..]);
    }
  }

  lemma {:induction false} UnpackedEncodes(f: Field, items: seq<Value>)
    requires WellFormedField(f) && forall v :: v in items ==> SafeValue(f, v) && CompleteValue(f, v)
    ensures UnpackedItems(f, items).Some?
    decreases f, 1, |items|
  {
    if items != [] {
      ValueEncodes(f, items[0]);
      UnpackedEncodes(f, items[1..]);
    }
  }

  // A field whose slot is within bounds and complete never fails to encode.
  lemma {:induction false} FieldEncodes(d: seq<Field>, i: nat, slot: Slot)
    requires WellFormedTable(d) && i < |d| && SafeSlot(d, i, slot) && CompleteSlot(d, i, slot)
    ensures EncodeField(d[i], slot).Some?
    decreases d, 0
  {
    var f := d[i];
    match slot
    case Single(v) => ValueEncodes(f, v);
    case Opt(has, v) =>
      if has {
        ValueEncodes(f, v);
      }
    case Arr(items) =>
      if Packable(f.ltype) {
        PackedEncodes(f, items);
      } else {
        UnpackedEncodes(f, items);
      }
    case UnionNone =>
    case Union(which, v) =>
      if which == f.tag {
        ValueEncodes(f, v);
      }
  }

  lemma {:induction false} MessageEncodes(d: seq<Field>, m: Struct, i: nat)
    requires WellFormedTable(d) && Safe(d, m) && Complete(d, m) && i <= |d|
    ensures EncodeFrom(d, m, i).Some?
    decreases d, 1, |d| - i
  {
    if i < |d| {
      FieldEncodes(d, i, m[d[i].member]);
      MessageEncodes(d, m, i + 1);
    }
  }

  // ------------------------------------------------------------ single records

  lemma LoopStep(d: seq<Field>, st: LoopState, b: seq<byte>, st': LoopState, rest: seq<byte>)
    requires DecodeRecord(d, st, b) == Next(st', rest)
    ensures DecodeLoop(d, st, b) == DecodeLoop(d, st', rest)
  {
  }

  // A record of a field that is in the table.
  lemma KnownRecord(d: seq<Field>, st: LoopState, i: nat, wireType: nat, payload: seq<byte>)
    requires i < |d| && FindTag(d, d[i].tag) == Some(i)
    requires 0 < d[i].tag < 0x2000_0000 && wireType < 8
    ensures DecodeRecord(d, st, EncodeTag(wireType, d[i].tag) + payload) == DecodeField(d, st, i, wireType, payload)
  {
    TagRoundTrip(wireType, d[i].tag, payload);
  }

  lemma KnownStep(d: seq<Field>, st: LoopState, i: nat, wireType: nat, body: seq<byte>, st': LoopState, tail: seq<byte>)
    requires i < |d| && FindTag(d, d[i].tag) == Some(i)
    requires 0 < d[i].tag < 0x2000_0000 && wireType < 8
    requires DecodeField(d, st, i, wireType, body + tail) == Next(st', tail)
    ensures DecodeLoop(d, st, EncodeTag(wireType, d[i].tag) + body + tail) == DecodeLoop(d, st', tail)
  {
    var b := EncodeTag(wireType, d[i].tag) + (body + tail);
    KnownRecord(d, st, i, wireType, body + tail);
    LoopStep(d, st, b, st', tail);
    assert b == EncodeTag(wireType, d[i].tag) + body + tail;
  }

  // A record of a field that is not in the table is skipped.
  lemma UnknownRecord(d: seq<Field>, st: LoopState, wireType: nat, tag: nat, payload: seq<byte>, tail: seq<byte>)
    requires FindTag(d, tag).None? && 0 < tag < 0x2000_0000 && wireType < 8
    requires SkipField(wireType, payload + tail) == Ok((), tail)
    ensures DecodeLoop(d, st, EncodeTag(wireType, tag) + payload + tail) == DecodeLoop(d, st, tail)
  {
    TagRoundTrip(wireType, tag, payload + tail);
    var b := EncodeTag(wireType, tag) + (payload + tail);
    assert EncodeTag(wireType, tag) + payload + tail == b;
    LoopStep(d, st, b, st, tail);
  }

  lemma UnknownValue(d: seq<Field>, st: LoopState, f: Field, v: Value, tail: seq<byte>)
    requires FindTag(d, f.tag).None? && WellFormedField(f)
    requires EncodeValue(f, v).Some? && |EncodeValue(f, v).value| < TWO_TO_32
    ensures DecodeLoop(d, st, TagFor(f) + EncodeValue(f, v).value + tail) == DecodeLoop(d, st, tail)
  {
    SkipValue(f, v, tail);
    UnknownRecord(d, st, WireType(f.ltype), f.tag, EncodeValue(f, v).value, tail);
  }

  lemma {:induction false} UnknownItems(d: seq<Field>, st: LoopState, f: Field, items: seq<Value>, tail: seq<byte>)
    requires FindTag(d, f.tag).None? && WellFormedField(f)
    requires UnpackedItems(f, items).Some? && |UnpackedItems(f, items).value| < TWO_TO_32
    ensures DecodeLoop(d, st, UnpackedItems(f, items).value + tail) == DecodeLoop(d, st, tail)
    decreases |items|
  {
    if items == [] {
      assert UnpackedItems(f, items).value + tail == tail;
    } else {
      var first := TagFor(f) + EncodeValue(f, items[0]).value;
      var others := UnpackedItems(f, items[1..]).value;
      assert UnpackedItems(f, items).value + tail == first + (others + tail);
      UnknownValue(d, st, f, items[0], others + tail);
      UnknownItems(d, st, f, items[1..], tail);
    }
  }

  lemma UnknownArray(d: seq<Field>, st: LoopState, f: Field, items: seq<Value>, tail: seq<byte>)
    requires FindTag(d, f.tag).None? && WellFormedField(f) && items != []
    requires EncodeArray(f, items).Some? && |EncodeArray(f, items).value| < TWO_TO_32
    ensures DecodeLoop(d, st, EncodeArray(f, items).value + tail) == DecodeLoop(d, st, tail)
  {
    if Packable(f.ltype) {
      var body := PackedItems(f, items).value;
      SkipDelimited(body, tail);
      UnknownRecord(d, st, WT_STRING, f.tag, Delimited(body), tail);
    } else {
      UnknownItems(d, st, f, items, tail);
    }
  }

  // Everything pb_encode writes for a field the decoder does not know is skipped.
  lemma UnknownField(d: seq<Field>, st: LoopState, f: Field, slot: Slot, tail: seq<byte>)
    requires FindTag(d, f.tag).None? && WellFormedField(f)
    requires EncodeField(f, slot).Some? && |EncodeField(f, slot).value| < TWO_TO_32
    ensures DecodeLoop(d, st, EncodeField(f, slot).value + tail) == DecodeLoop(d, st, tail)
  {
    if EncodeField(f, slot).value == [] {
      assert EncodeField(f, slot).value + tail == tail;
    } else {
      match slot
      case Single(v) => UnknownValue(d, st, f, v, tail);
      case Opt(_, v) => UnknownValue(d, st, f, v, tail);
      case Union(_, v) => UnknownValue(d, st, f, v, tail);
      case Arr(items) => UnknownArray(d, st, f, items, tail);
    }
  }

  // ----------------------------------------------------------- packed payloads

  lemma ScalarDecodes(f': Field, f: Field, v: Value, rest: seq<byte>)
    requires f'.ltype == f.ltype && f'.dataSize == f.dataSize <= PB_SIZE_MAX && SafeScalar(f, v)
    ensures EncodeScalar(f, v).Some?
    ensures DecodeScalar(f', EncodeScalar(f, v).value + rest) == Ok(v, rest)
  {
    ScalarRoundTrip(f, v, rest);
    SameScalar(f', f, EncodeScalar(f, v).value + rest);
  }

  // Decoding depends on the type and size of a field only.
  lemma SameScalar(f': Field, f: Field, b: seq<byte>)
    requires f'.ltype == f.ltype && f'.dataSize == f.dataSize
    ensures DecodeScalar(f', b) == DecodeScalar(f, b)
  {
  }

  lemma PackedFirst(f: Field, items: seq<Value>)
    requires items != [] && EncodeScalar(f, items[0]).Some? && PackedItems(f, items[1..]).Some?
    ensures PackedItems(f, items) == Some(EncodeScalar(f, items[0]).value + PackedItems(f, items[1..]).value)
  {
  }

  lemma PackedStep(f': Field, f: Field, a: ArrayState, v: Value, others: seq<byte>)
    requires f'.ltype == f.ltype && f'.dataSize == f.dataSize <= PB_SIZE_MAX && SafeScalar(f, v)
    requires a.count == |a.items| < f'.arraySize
    ensures EncodeScalar(f, v).Some?
    ensures DecodePacked(f', a, EncodeScalar(f, v).value + others)
         == DecodePacked(f', ArrayState(a.items + [v], a.count + 1), others)
  {
    ScalarDecodes(f', f, v, others);
    PackedNext(f', a, EncodeScalar(f, v).value + others, Ok(v, others));
  }

  // The first entry of a packed array, in front of the others.
  lemma FirstItem(f': Field, f: Field, a: ArrayState, items: seq<Value>, others: seq<byte>) returns (bytes: seq<byte>)
    requires f'.ltype == f.ltype && f'.dataSize == f.dataSize <= PB_SIZE_MAX
    requires items != [] && SafeScalar(f, items[0]) && a.count == |a.items| < f'.arraySize
    requires PackedItems(f, items[1..]) == Some(others)
    ensures PackedItems(f, items) == Some(bytes)
    ensures DecodePacked(f', a, bytes) == DecodePacked(f', ArrayState(a.items + [items[0]], a.count + 1), others)
  {
    PackedStep(f', f, a, items[0], others);
    bytes := EncodeScalar(f, items[0]).value + others;
    PackedFirst(f, items);
  }

  // A packed array decodes to the entries already there, followed by its own.
  lemma {:induction false} PackedRoundTrip(f': Field, f: Field, a: ArrayState, items: seq<Value>,
                                           all: seq<Value>)
    returns (bytes: seq<byte>)
    requires f'.ltype == f.ltype && f'.dataSize == f.dataSize <= PB_SIZE_MAX
    requires forall v :: v in items ==> SafeScalar(f, v)
    requires a.count == |a.items| && all == a.items + items && |all| <= f'.arraySize
    ensures PackedItems(f, items) == Some(bytes)
    ensures DecodePacked(f', a, bytes) == Some(ArrayState(all, |all|))
    decreases |items|
  {
    if items == [] {
      bytes := [];
      assert all == a.items;
    } else {
      var others := PackedRoundTrip(f', f, ArrayState(a.items + [items[0]], a.count + 1), items[1..], all);
      bytes := FirstItem(f', f, a, items, others);
    }
  }
}
