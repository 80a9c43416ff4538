// Whatever the input, a successful decode leaves every count, string, byte array
// and integer within the bounds of its table.
module Safety {
  import opened Wrappers
  import opened Bits
  import opened Varint
  import opened Descriptor
  import opened DecodeSpec
  import opened WellFormed

  lemma {:induction false} UpToNulBound(b: seq<byte>)
    ensures |UpToNul(b)| <= |b| && 0 !in UpToNul(b)
  {
    if b != [] && b[0] != 0 {
      UpToNulBound(b[1..]);
    }
  }

  lemma {:induction false} FromLittleEndianBound(b: seq<byte>)
    ensures |b| == 4 ==> FromLittleEndian(b) < TWO_TO_32
    ensures |b| == 8 ==> FromLittleEndian(b) < TWO_TO_64
  {
    PowersOfTwo();
    LittleEndianBelow(b);
  }

  lemma {:induction false} LittleEndianBelow(b: seq<byte>)
    ensures FromLittleEndian(b) < Shl(1, 8 * |b|)
  {
    if b != [] {
      LittleEndianBelow(b[1..]);
      ShlShl(1, 8 * |b| - 8, 8);
      ShlSeven(Shl(1, 8 * |b| - 8), 1);
    }
  }

  lemma DecodedScalarSafe(f: Field, b: seq<byte>)
    requires WellFormedField(f) && DecodeScalar(f, b).Ok?
    ensures SafeScalar(f, DecodeScalar(f, b).value)
  {
    match f.ltype
    case STRING =>
      var size := DecodeVarint32(b).value;
      UpToNulBound(Read(DecodeVarint32(b).rest, size).value);
    case FIXED32 => FromLittleEndianBound(Read(b, 4).value);
    case FIXED64 => FromLittleEndianBound(Read(b, 8).value);
    case _ =>
  }

  lemma {:induction false} DefaultsSafe(d: seq<Field>)
    requires WellFormedTable(d)
    ensures Safe(d, Defaults(d))
    decreases d
  {
    forall i | 0 <= i < |d|
      ensures SafeSlot(d, i, Defaults(d)[d[i].member])
    {
      DefaultsAt(d, i);
      if d[i].ltype.SUBMESSAGE? {
        DefaultsSafe(d[i].ltype.fields);
      }
    }
  }

  lemma {:induction false} DecodedValueSafe(f: Field, current: Value, b: seq<byte>)
    requires WellFormedField(f) && DecodeValue(f, current, b).Ok?
    requires f.htype.REPEATED? || SafeValue(f, current)
    ensures SafeValue(f, DecodeValue(f, current, b).value)
    decreases |b|, 0
  {
    match f.ltype
    case SUBMESSAGE(fields) =>
      DefaultsSafe(fields);
      var start := if f.htype.REPEATED? then Defaults(fields) else AsStruct(current);
      DecodedMessageSafe(fields, start, ReadDelimited(b).value);
    case _ => DecodedScalarSafe(f, b);
  }

  lemma {:induction false} DecodedPackedSafe(f: Field, a: ArrayState, b: seq<byte>)
    requires WellFormedField(f) && DecodePacked(f, a, b).Some?
    requires a.count <= f.arraySize && |a.items| <= f.arraySize && forall v :: v in a.items ==> SafeScalar(f, v)
    ensures
      var a' := DecodePacked(f, a, b).value;
      a.count <= a'.count <= f.arraySize && |a'.items| <= f.arraySize && forall v :: v in a'.items ==> SafeScalar(f, v)
    decreases |b|
  {
    if b != [] {
      DecodedScalarSafe(f, b);
      var r := DecodeScalar(f, b);
      PackedNext(f, a, b, r);
      DecodedPackedSafe(f, ArrayState(Put(a.items, a.count, r.value), a.count + 1), r.rest);
    }
  }

  // Every entry is written below the array size, and the count stays within it.
  lemma {:induction false} DecodedEntrySafe(f: Field, a: ArrayState, wireType: nat, b: seq<byte>)
    requires WellFormedField(f) && f.htype.REPEATED? && DecodeEntry(f, a, wireType, b).Ok?
    requires a.count <= f.arraySize && |a.items| <= f.arraySize && forall v :: v in a.items ==> SafeValue(f, v)
    ensures
      var a' := DecodeEntry(f, a, wireType, b).value;
      a'.count <= f.arraySize && |a'.items| <= f.arraySize && forall v :: v in a'.items ==> SafeValue(f, v)
    decreases |b|, 1
  {
    if wireType == WT_STRING && Packable(f.ltype) {
      DecodedPackedSafe(f, a, ReadDelimited(b).value);
    } else {
      DecodedValueSafe(f, ZeroValue(f), b);
    }
  }

  lemma {:induction false} DecodedSingleSafe(d: seq<Field>, i: nat, slot: Slot, b: seq<byte>)
    requires WellFormedTable(d) && i < |d| && SafeSlot(d, i, slot) && DecodeSingle(d[i], slot, b).Ok?
    ensures SafeSlot(d, i, DecodeSingle(d[i], slot, b).value)
    decreases |b|, 1
  {
    var f := d[i];
    match f.htype
    case REQUIRED => DecodedValueSafe(f, slot.v, b);
    case OPTIONAL => DecodedValueSafe(f, if HasFlag(f) then slot.content else slot.v, b);
    case ONEOF =>
      DefaultValueSafe(f);
      DecodedValueSafe(f, DefaultValue(f), b);
  }

  lemma DefaultValueSafe(f: Field)
    requires WellFormedField(f)
    ensures SafeValue(f, DefaultValue(f))
  {
    if f.ltype.SUBMESSAGE? {
      DefaultsSafe(f.ltype.fields);
    }
  }

  // Changing one slot within its bounds.
  lemma SafeUpdate(d: seq<Field>, m: Struct, i: nat, slot: Slot)
    requires WellFormedTable(d) && Safe(d, m) && i < |d| && SafeSlot(d, i, slot)
    ensures Safe(d, m[d[i].member := slot])
  {
  }

  // The struct is within bounds, and so is the count of the fixed count array
  // being received.
  ghost predicate SafeState(d: seq<Field>, st: LoopState) {
    && Safe(d, st.m)
    && (st.fixedField.Some? ==> st.fixedField.value < |d| && st.fixedCount <= d[st.fixedField.value].arraySize)
  }

  lemma {:induction false} DecodedFieldSafe(d: seq<Field>, st: LoopState, i: nat, wireType: nat, b: seq<byte>)
    requires WellFormedTable(d) && SafeState(d, st) && i < |d| && DecodeField(d, st, i, wireType, b).Next?
    ensures SafeState(d, DecodeField(d, st, i, wireType, b).st)
    decreases |b|, 2
  {
    var f := d[i];
    var slot := st.m[f.member];
    assert WellFormedField(f) && SafeSlot(d, i, slot);
    if f.htype.REPEATED? {
      var count := if !FixedCount(f) then |slot.items| else if st.fixedField == Some(i) then st.fixedCount else 0;
      var a := ArrayState(slot.items, count);
      DecodedEntrySafe(f, a, wireType, b);
      SafeUpdate(d, st.m, i, Arr(DecodeEntry(f, a, wireType, b).value.items));
    } else {
      DecodedSingleSafe(d, i, slot, b);
      SafeUpdate(d, st.m, i, DecodeSingle(f, slot, b).value);
    }
  }

  lemma {:induction false} DecodedLoopSafe(d: seq<Field>, st: LoopState, b: seq<byte>)
    requires WellFormedTable(d) && SafeState(d, st) && !DecodeLoop(d, st, b).Failed?
    ensures SafeState(d, DecodeLoop(d, st, b).st)
    decreases |b|, 3
  {
    if b != [] {
      match DecodeTag(b)
      case Tag(tag, wireType, rest) =>
        match FindTag(d, tag) {
          case Some(i) => DecodedFieldSafe(d, st, i, wireType, rest);
          case None =>
        }
        var step := DecodeRecord(d, st, b);
        DecodedLoopSafe(d, step.st, step.rest);
      case _ =>
    }
  }

  // pb_decode_noinit keeps a struct within bounds, on every input it accepts.
  lemma {:induction false} DecodedMessageSafe(d: seq<Field>, m: Struct, b: seq<byte>)
    requires WellFormedTable(d) && Safe(d, m) && DecodeNoinit(d, m, b).Ok?
    ensures Safe(d, DecodeNoinit(d, m, b).value)
    decreases |b|, 4
  {
    DecodedLoopSafe(d, Start(m), b);
  }
}
