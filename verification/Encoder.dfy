// pb_encode.c: the field encoders and the message loop, against EncodeSpec.
module Encoder {
  import opened Wrappers
  import opened Bits
  import opened Integers
  import opened Descriptor
  import opened EncodeSpec
  import opened WellFormed
  import opened FieldIter
  import opened OutputStream

  // ------------------------------------------------------------ field encoders

  // The PB_ENCODERS entries for everything but submessages.
  method EncScalar(s: OStream, f: Field, v: Value) returns (ok: bool)
    requires s.Valid() && f.dataSize <= PB_SIZE_MAX
    modifies s, s.buffer
    ensures s.Valid() && Emits(old(s.Now()), s.Now(), EncodeScalar(f, v), ok)
  {
    match f.ltype
    case BOOL =>
      if !v.VBool? {
        return false;
      }
      ok := s.EncodeVarint(if v.b then 1 else 0);
    case VARINT =>
      if !v.VInt? || !IntegerSize(f.dataSize) {
        return false;
      }
      ok := s.EncodeVarint(v.i % 0x1_0000_0000_0000_0000);
    case UVARINT =>
      if !v.VInt? || !IntegerSize(f.dataSize) || !UnsignedRange(v.i, f.dataSize) {
        return false;
      }
      ok := s.EncodeVarint(v.i);
    case SVARINT =>
      if !v.VInt? || !IntegerSize(f.dataSize) {
        return false;
      }
      ok := s.EncodeSvarint(v.i);
    case FIXED32 =>
      if !v.VInt? || !UnsignedRange(v.i, 4) {
        return false;
      }
      ok := s.EncodeFixed32(v.i);
    case FIXED64 =>
      if !v.VInt? || !UnsignedRange(v.i, 8) {
        return false;
      }
      ok := s.EncodeFixed64(v.i);
    case BYTES =>
      if !v.VBytes? || |v.data| + BYTES_HEADER > f.dataSize {
        return false;
      }
      ok := s.EncodeString(v.data);
    case STRING =>
      if !v.VBytes? || |v.data| > f.dataSize {
        return false;
      }
      ok := s.EncodeString(v.data);
    case FIXED_LENGTH_BYTES =>
      if !v.VBytes? || |v.data| != f.dataSize {
        return false;
      }
      ok := s.EncodeString(v.data);
    case SUBMESSAGE(_) => ok := false;
  }

  // The submessage as a step of the outer stream.
  lemma SubstreamEmits(outer: Snapshot, before: Snapshot, after: Snapshot, final: Snapshot, body: seq<byte>, ok: bool)
    requires outer.Valid() && !outer.sizing && outer.bytesWritten + |body| <= outer.maxSize
    requires before == outer.(maxSize := |body|, bytesWritten := 0)
    requires Emits(before, after, Some(body), ok)
    requires final == outer.(buffer := after.buffer, state := after.state,
                             bytesWritten := outer.bytesWritten + after.bytesWritten)
    ensures ok && after.bytesWritten == |body|
    ensures Emits(outer, final, Some(body), true)
  {
    assert after.buffer[outer.Limit()..] == after.buffer[before.Limit()..][outer.Limit() - before.Limit()..];
    assert before.buffer[outer.Limit()..] == before.buffer[before.Limit()..][outer.Limit() - before.Limit()..];
  }

  // The second half of pb_encode_submessage, into a real stream: the contents are
  // written through a substream of the size found before.  They always have that
  // size, so "submsg size changed" is never reported.
  method EncContents(s: OStream, fields: seq<Field>, m: Struct, size: nat) returns (ok: bool)
    requires s.Valid() && !s.sizing && WellFormedTable(fields) && Shaped(fields, m)
    requires Encode(fields, m).Some? && size == |Encode(fields, m).value|
    modifies s, s.buffer
    ensures s.Valid() && Emits(old(s.Now()), s.Now(), Encode(fields, m), ok)
    decreases fields, 7
  {
    if s.bytesWritten + size > s.maxSize {
      return false;
    }
    ghost var body := Encode(fields, m).value;
    var sub := new OStream.Sub(s, size);
    ghost var before := sub.Now();
    var status := EncodeMessage(sub, fields, m);
    ghost var final := old(s.Now()).(buffer := s.buffer[..], state := sub.state,
                                     bytesWritten := s.bytesWritten + sub.bytesWritten);
    SubstreamEmits(old(s.Now()), before, sub.Now(), final, body, status);
    s.bytesWritten := s.bytesWritten + sub.bytesWritten;
    s.state := sub.state;
    ok := sub.bytesWritten == size && status;
  }

  // pb_encode_submessage: the size is computed with a sizing stream first.
  method EncSubmessage(s: OStream, fields: seq<Field>, m: Struct) returns (ok: bool)
    requires s.Valid() && WellFormedTable(fields) && Shaped(fields, m)
    requires Encode(fields, m).Some? ==> |Encode(fields, m).value| < TWO_TO_64
    modifies s, s.buffer
    ensures s.Valid()
    ensures
      var body := Encode(fields, m);
      Emits(old(s.Now()), s.Now(), if body.None? then None else Some(Delimited(body.value)), ok)
    decreases fields, 8
  {
    ghost var bytes := Encode(fields, m);
    var sizer := new OStream.Sizing();
    ok := EncodeMessage(sizer, fields, m);
    if !ok {
      return;
    }
    var size := sizer.bytesWritten;
    ok := s.EncodeVarint(size);
    ghost var middle := s.Now();
    if !ok {
      EmitsFailed(old(s.Now()), middle, Some(Varint.EncodeVarint(size)), bytes);
      return;
    }
    if s.sizing {
      ok := s.WriteSize(size);
    } else {
      ok := EncContents(s, fields, m, size);
    }
    EmitsBoth(old(s.Now()), middle, s.Now(), Some(Varint.EncodeVarint(size)), bytes, ok);
  }

  // The PB_ENCODERS entry of a field.
  method Enc(s: OStream, f: Field, v: Value) returns (ok: bool)
    requires s.Valid() && WellFormedField(f) && ShapedValue(f, v)
    modifies s, s.buffer
    ensures s.Valid() && Emits(old(s.Now()), s.Now(), EncodeValue(f, v), ok)
    decreases f, 0
  {
    if f.ltype.SUBMESSAGE? {
      if !v.VMsg? {
        return false;
      }
      ok := EncSubmessage(s, f.ltype.fields, v.m);
    } else {
      ok := EncScalar(s, f, v);
    }
  }

  // A tag and a value.
  method EncTagged(s: OStream, f: Field, v: Value) returns (ok: bool)
    requires s.Valid() && WellFormedField(f) && ShapedValue(f, v)
    modifies s, s.buffer
    ensures s.Valid() && Emits(old(s.Now()), s.Now(), Cat(Some(TagFor(f)), EncodeValue(f, v)), ok)
    decreases f, 1
  {
    ok := s.EncodeTagForField(f);
    ghost var middle := s.Now();
    if !ok {
      EmitsFailed(old(s.Now()), middle, Some(TagFor(f)), EncodeValue(f, v));
      return;
    }
    ok := Enc(s, f, v);
    EmitsBoth(old(s.Now()), middle, s.Now(), Some(TagFor(f)), EncodeValue(f, v), ok);
  }

  // pb_check_proto3_default_value
  method CheckProto3Default(f: Field, slot: Slot) returns (yes: bool)
    ensures yes <==> IsDefault(f, slot)
    decreases f, 1
  {
    if f.htype.REQUIRED? {
      return false;
    } else if f.htype.REPEATED? {
      return f.sizeOffset != 0 && slot == Arr([]);
    } else if f.htype.ONEOF? {
      return slot.UnionNone?;
    } else if f.htype.OPTIONAL? && f.sizeOffset != 0 {
      return slot.Opt? && !slot.has;
    }
    if !slot.Single? {
      return false;
    }
    yes := CheckZero(f, slot.v);
  }

  // Its part for proto3 singular fields.
  method CheckZero(f: Field, v: Value) returns (yes: bool)
    ensures yes <==> IsZero(f, v)
    decreases f, 0
  {
    match f.ltype
    case BOOL => yes := v == VBool(false);
    case VARINT | UVARINT | SVARINT | FIXED32 | FIXED64 => yes := v == VInt(0);
    case BYTES | STRING => yes := v == VBytes([]);
    case FIXED_LENGTH_BYTES => yes := f.dataSize == 0;
    case SUBMESSAGE(fields) =>
      if !v.VMsg? {
        return false;
      }
      var iter := new Iter(fields, 0);
      var more := fields != [];
      ghost var done := 0;
      while more
        invariant iter.Valid() && iter.start == fields && fresh(iter)
        invariant if more then iter.pos == done < |fields| else done == |fields|
        invariant forall i :: 0 <= i < done ==>
          fields[i].member in v.m && IsDefault(fields[i], v.m[fields[i].member])
        decreases |fields| - done
      {
        var g := fields[iter.pos];
        if g.member !in v.m {
          return false;
        }
        yes := CheckProto3Default(g, v.m[g.member]);
        if !yes {
          return;
        }
        done := done + 1;
        more := iter.Next();
      }
      yes := true;
  }

  // -------------------------------------------------------------------- arrays

  // The loop over a packed array: for sizing, and again for writing.
  method EncPackedItems(s: OStream, f: Field, items: seq<Value>) returns (ok: bool)
    requires s.Valid() && f.dataSize <= PB_SIZE_MAX
    modifies s, s.buffer
    ensures s.Valid() && Emits(old(s.Now()), s.Now(), PackedItems(f, items), ok)
  {
    ghost var written: seq<byte> := [];
    EmitsNothing(s.Now());
    assert items[0..] == items;
    CatEmpty(PackedItems(f, items));
    for i := 0 to |items|
      invariant s.Valid() && Emits(old(s.Now()), s.Now(), Some(written), true)
      invariant Cat(Some(written), PackedItems(f, items[i..])) == PackedItems(f, items)
    {
      ghost var before := s.Now();
      ghost var bytes := EncodeScalar(f, items[i]);
      ok := EncScalar(s, f, items[i]);
      assert items[i..][1..] == items[i + 1..];
      EmitsNext(old(s.Now()), before, s.Now(), written, bytes, PackedItems(f, items[i + 1..]), ok);
      if !ok {
        return;
      }
      written := written + bytes.value;
    }
    ok := true;
  }

  // The records of an unpacked array.
  method EncUnpackedItems(s: OStream, f: Field, items: seq<Value>) returns (ok: bool)
    requires s.Valid() && WellFormedField(f) && forall v :: v in items ==> ShapedValue(f, v)
    modifies s, s.buffer
    ensures s.Valid() && Emits(old(s.Now()), s.Now(), UnpackedItems(f, items), ok)
    decreases f, 2
  {
    ghost var written: seq<byte> := [];
    EmitsNothing(s.Now());
    assert items[0..] == items;
    CatEmpty(UnpackedItems(f, items));
    for i := 0 to |items|
      invariant s.Valid() && Emits(old(s.Now()), s.Now(), Some(written), true)
      invariant Cat(Some(written), UnpackedItems(f, items[i..])) == UnpackedItems(f, items)
    {
      ghost var before := s.Now();
      ghost var bytes := Cat(Some(TagFor(f)), EncodeValue(f, items[i]));
      ok := EncTagged(s, f, items[i]);
      assert items[i..][1..] == items[i + 1..];
      EmitsNext(old(s.Now()), before, s.Now(), written, bytes, UnpackedItems(f, items[i + 1..]), ok);
      if !ok {
        return;
      }
      written := written + bytes.value;
    }
    ok := true;
  }

  lemma {:induction false} FixedItemsEncode(f: Field, items: seq<Value>)
    requires f.ltype.FIXED32? || f.ltype.FIXED64?
    requires forall v :: v in items ==> ShapedValue(f, v)
    ensures PackedItems(f, items).Some?
  {
    if items != [] {
      assert items[0] in items;
      FixedItemsEncode(f, items[1..]);
    }
  }

  // The total size of a packed array.
  method PackedSize(f: Field, items: seq<Value>) returns (ok: bool, size: nat)
    requires WellFormedField(f) && Packable(f.ltype) && forall v :: v in items ==> ShapedValue(f, v)
    ensures ok <==> PackedItems(f, items).Some?
    ensures ok ==> size == |PackedItems(f, items).value|
  {
    if f.ltype.FIXED32? || f.ltype.FIXED64? {
      FixedItemsEncode(f, items);
      PackedBound(f, items);
      ok, size := true, if f.ltype.FIXED32? then 4 * |items| else 8 * |items|;
    } else {
      var sizer := new OStream.Sizing();
      ok := EncPackedItems(sizer, f, items);
      size := sizer.bytesWritten;
    }
  }

  // The length and the entries of a packed array.
  method EncPayload(s: OStream, f: Field, items: seq<Value>, size: nat) returns (ok: bool)
    requires s.Valid() && WellFormedField(f) && Packable(f.ltype) && size < TWO_TO_64
    requires PackedItems(f, items).Some? && size == |PackedItems(f, items).value|
    modifies s, s.buffer
    ensures s.Valid() && Emits(old(s.Now()), s.Now(), Some(Delimited(PackedItems(f, items).value)), ok)
  {
    ghost var body := PackedItems(f, items);
    ok := s.EncodeVarint(size);
    ghost var middle := s.Now();
    if !ok {
      EmitsFailed(old(s.Now()), middle, Some(Varint.EncodeVarint(size)), body);
      return;
    }
    if s.sizing {
      ok := s.WriteSize(size);
    } else {
      ok := EncPackedItems(s, f, items);
    }
    EmitsBoth(old(s.Now()), middle, s.Now(), Some(Varint.EncodeVarint(size)), body, ok);
  }

  // The packed array branch of encode_array.
  method EncPacked(s: OStream, f: Field, items: seq<Value>) returns (ok: bool)
    requires s.Valid() && WellFormedField(f) && f.htype.REPEATED? && Packable(f.ltype)
    requires 0 < |items| <= f.arraySize && forall v :: v in items ==> ShapedValue(f, v)
    modifies s, s.buffer
    ensures s.Valid() && Emits(old(s.Now()), s.Now(), EncodeArray(f, items), ok)
  {
    ghost var tag := EncodeTag(WT_STRING, f.tag);
    ghost var body := PackedItems(f, items);
    ghost var payload := if body.None? then None else Some(Delimited(body.value));
    assert EncodeArray(f, items) == Cat(Some(tag), payload);
    ok := s.EncodeTag(WT_STRING, f.tag);
    ghost var tagged := s.Now();
    if !ok {
      EmitsFailed(old(s.Now()), tagged, Some(tag), payload);
      return;
    }
    var size;
    ok, size := PackedSize(f, items);
    if ok {
      PackedBound(f, items);
      ok := EncPayload(s, f, items, size);
    }
    EmitsBoth(old(s.Now()), tagged, s.Now(), Some(tag), payload, ok);
  }

  // encode_array
  method EncArray(s: OStream, f: Field, items: seq<Value>) returns (ok: bool)
    requires s.Valid() && WellFormedField(f) && f.htype.REPEATED? && forall v :: v in items ==> ShapedValue(f, v)
    modifies s, s.buffer
    ensures s.Valid() && Emits(old(s.Now()), s.Now(), EncodeArray(f, items), ok)
    decreases f, 3
  {
    EmitsNothing(s.Now());
    if items == [] {
      return true;
    }
    if |items| > f.arraySize {
      return false;
    }
    if Packable(f.ltype) {
      ok := EncPacked(s, f, items);
    } else {
      ok := EncUnpackedItems(s, f, items);
    }
  }

  // ------------------------------------------------------------ whole messages

  // encode_basic_field
  method EncodeBasicField(s: OStream, f: Field, slot: Slot) returns (ok: bool)
    requires s.Valid() && WellFormedField(f) && ShapedSlot(f, slot)
    modifies s, s.buffer
    ensures s.Valid() && Emits(old(s.Now()), s.Now(), EncodeField(f, slot), ok)
    decreases f, 4
  {
    EmitsNothing(s.Now());
    match f.htype
    case REQUIRED =>
      if !slot.Single? {
        return false;
      }
      ok := EncTagged(s, f, slot.v);
    case OPTIONAL =>
      if f.sizeOffset != 0 {
        if !slot.Opt? {
          return false;
        }
        if slot.has {
          ok := EncTagged(s, f, slot.content);
        } else {
          ok := true;
        }
      } else {
        if !slot.Single? {
          return false;
        }
        var isDefault := CheckProto3Default(f, slot);
        if isDefault {
          ok := true;
        } else {
          ok := EncTagged(s, f, slot.v);
        }
      }
    case REPEATED =>
      if !slot.Arr? || (f.sizeOffset == 0 && |slot.items| != f.arraySize) {
        return false;
      }
      ok := EncArray(s, f, slot.items);
    case ONEOF =>
      if slot.Union? && slot.which == f.tag {
        ok := EncTagged(s, f, slot.payload);
      } else {
        ok := slot.Union? || slot.UnionNone?;
      }
  }

  // What encoding the i-th entry needs.
  ghost predicate Ready(d: seq<Field>, m: Struct, i: nat)
    requires i < |d|
  {
    WellFormedField(d[i]) && (d[i].member in m ==> ShapedSlot(d[i], m[d[i].member]))
  }

  // One round of the loop of pb_encode.
  method EncodeNext(s: OStream, d: seq<Field>, m: Struct, i: nat, ghost start: Snapshot, ghost written: seq<byte>)
    returns (ok: bool, ghost written': seq<byte>)
    requires s.Valid() && i < |d| && Ready(d, m, i)
    requires Emits(start, s.Now(), Some(written), true)
    requires Cat(Some(written), EncodeFrom(d, m, i)) == Encode(d, m)
    modifies s, s.buffer
    ensures s.Valid()
    ensures ok ==> Emits(start, s.Now(), Some(written'), true)
    ensures ok ==> Cat(Some(written'), EncodeFrom(d, m, i + 1)) == Encode(d, m)
    ensures !ok ==> Emits(start, s.Now(), Encode(d, m), false)
    decreases d, 5, 0
  {
    var f := d[i];
    written' := written;
    if f.member !in m {
      EmitsAborted(start, s.Now(), Some(written));
      return false, written;
    }
    ghost var before := s.Now();
    ghost var bytes := EncodeField(f, m[f.member]);
    ok := EncodeBasicField(s, f, m[f.member]);
    EmitsNext(start, before, s.Now(), written, bytes, EncodeFrom(d, m, i + 1), ok);
    if ok { written' := written + bytes.value; }
  }

  // The loop of pb_encode.
  method EncodeFields(s: OStream, d: seq<Field>, m: Struct) returns (ok: bool)
    requires s.Valid() && (forall i {:trigger Ready(d, m, i)} :: 0 <= i < |d| ==> Ready(d, m, i))
    modifies s, s.buffer
    ensures s.Valid() && Emits(old(s.Now()), s.Now(), Encode(d, m), ok)
    decreases d, 6, 0
  {
    EmitsNothing(s.Now());
    var iter := new Iter(d, 0);
    var more := d != [];
    ghost var done: nat := 0;
    ghost var written: seq<byte> := [];
    CatEmpty(Encode(d, m));
    while more
      invariant Emits(old(s.Now()), s.Now(), Some(written), true)
      invariant iter.Valid() && iter.start == d && fresh(iter)
      invariant if more then iter.pos == done < |d| else done == |d|
      invariant Cat(Some(written), EncodeFrom(d, m, done)) == Encode(d, m)
      decreases |d| - done
    {
      assert Ready(d, m, iter.pos);
      ok, written := EncodeNext(s, d, m, iter.pos, old(s.Now()), written);
      if !ok {
        return;
      }
      done := done + 1;
      more := iter.Next();
    }
    ok := true;
  }

  // pb_encode
  method EncodeMessage(s: OStream, d: seq<Field>, m: Struct) returns (ok: bool)
    requires s.Valid() && WellFormedTable(d) && Shaped(d, m)
    modifies s, s.buffer
    ensures s.Valid() && Emits(old(s.Now()), s.Now(), Encode(d, m), ok)
    decreases d, 6, 1
  {
    ok := EncodeFields(s, d, m);
  }

  // pb_get_encoded_size
  method GetEncodedSize(d: seq<Field>, m: Struct) returns (ok: bool, size: nat)
    requires WellFormedTable(d) && Shaped(d, m)
    ensures ok <==> Encode(d, m).Some?
    ensures ok ==> size == |Encode(d, m).value|
  {
    var stream := new OStream.Sizing();
    ok := EncodeMessage(stream, d, m);
    size := stream.bytesWritten;
  }

  // Encoding into a fresh buffer of capacity n succeeds exactly if the encoded
  // size can be computed and is at most n; the buffer then starts with the bytes.
  method EncodeToBuffer(d: seq<Field>, m: Struct, buffer: array<byte>) returns (ok: bool, size: nat)
    requires WellFormedTable(d) && Shaped(d, m)
    modifies buffer
    ensures ok <==> Encode(d, m).Some? && |Encode(d, m).value| <= buffer.Length
    ensures ok ==> size == |Encode(d, m).value| <= buffer.Length && buffer[..size] == Encode(d, m).value
  {
    var stream := new OStream.FromBuffer(buffer, buffer.Length);
    ok := EncodeMessage(stream, d, m);
    size := stream.bytesWritten;
    if ok {
      assert buffer[..][0..size] == buffer[..size];
    }
  }
}
