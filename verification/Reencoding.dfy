// Whatever the decoder accepts is canonical, so encoding it and decoding that gives the
// same struct.
module Reencoding {
  import opened Wrappers
  import opened Bits
  import opened Varint
  import opened Descriptor
  import opened EncodeSpec
  import opened DecodeSpec
  import opened WellFormed
  import opened Safety
  import opened Projection

  lemma {:induction false} DefaultValueCanonical(f: Field)
    requires WellFormedField(f)
    ensures CanonicalValue(f, DefaultValue(f))
    decreases f, 0
  {
    if f.ltype.SUBMESSAGE? {
      DefaultsCanonical(f.ltype.fields);
    }
  }

  lemma {:induction false} DefaultsCanonical(d: seq<Field>)
    requires WellFormedTable(d)
    ensures Canonical(d, Defaults(d))
    decreases d
  {
    forall i | 0 <= i < |d|
      ensures d[i].member in Defaults(d) && CanonicalSlot(d, i, Defaults(d)[d[i].member])
    {
      DefaultsAt(d, i);
      DefaultValueCanonical(d[i]);
    }
  }

  lemma {:induction false} ValueCanonical(f: Field, current: Value, b: seq<byte>)
    requires WellFormedField(f) && DecodeValue(f, current, b).Ok?
    requires f.htype.REPEATED? || CanonicalValue(f, current)
    ensures CanonicalValue(f, DecodeValue(f, current, b).value)
    decreases |b|, 0
  {
    if f.ltype.SUBMESSAGE? {
      var fields := f.ltype.fields;
      DefaultsCanonical(fields);
      var start := if f.htype.REPEATED? then Defaults(fields) else AsStruct(current);
      MessageCanonical(fields, start, ReadDelimited(b).value);
    }
  }

  lemma {:induction false} EntryCanonical(f: Field, a: ArrayState, wireType: nat, b: seq<byte>)
    requires WellFormedField(f) && f.htype.REPEATED? && DecodeEntry(f, a, wireType, b).Ok?
    requires forall v :: v in a.items ==> CanonicalValue(f, v)
    ensures forall v :: v in DecodeEntry(f, a, wireType, b).value.items ==> CanonicalValue(f, v)
    decreases |b|, 1
  {
    if f.ltype.SUBMESSAGE? {
      ValueCanonical(f, ZeroValue(f), b);
    }
  }

  lemma {:induction false} SingleCanonical(d: seq<Field>, i: nat, slot: Slot, b: seq<byte>)
    requires WellFormedTable(d) && i < |d| && CanonicalSlot(d, i, slot) && DecodeSingle(d[i], slot, b).Ok?
    ensures CanonicalSlot(d, i, DecodeSingle(d[i], slot, b).value)
    decreases |b|, 1
  {
    var f := d[i];
    DefaultValueCanonical(f);
    match f.htype
    case REQUIRED => ValueCanonical(f, slot.v, b);
    case OPTIONAL => ValueCanonical(f, if HasFlag(f) then slot.content else slot.v, b);
    case ONEOF => ValueCanonical(f, DefaultValue(f), b);
  }

  lemma CanonicalUpdate(d: seq<Field>, m: Struct, i: nat, slot: Slot)
    requires WellFormedTable(d) && Canonical(d, m) && i < |d| && CanonicalSlot(d, i, slot)
    requires d[i].htype.ONEOF? ==> slot.Union? && slot.which == d[i].tag
    ensures Canonical(d, m[d[i].member := slot])
  {
  }

  lemma {:induction false} FieldCanonical(d: seq<Field>, st: LoopState, i: nat, wireType: nat, b: seq<byte>)
    requires WellFormedTable(d) && Canonical(d, st.m) && i < |d| && DecodeField(d, st, i, wireType, b).Next?
    ensures Canonical(d, DecodeField(d, st, i, wireType, b).st.m)
    decreases |b|, 2
  {
    var f := d[i];
    var slot := st.m[f.member];
    if f.htype.REPEATED? {
      var count := if !FixedCount(f) then |slot.items| else if st.fixedField == Some(i) then st.fixedCount else 0;
      var a := ArrayState(slot.items, count);
      EntryCanonical(f, a, wireType, b);
      CanonicalUpdate(d, st.m, i, Arr(DecodeEntry(f, a, wireType, b).value.items));
    } else {
      SingleCanonical(d, i, slot, b);
      CanonicalUpdate(d, st.m, i, DecodeSingle(f, slot, b).value);
    }
  }

  lemma {:induction false} LoopCanonical(d: seq<Field>, st: LoopState, b: seq<byte>)
    requires WellFormedTable(d) && Canonical(d, st.m) && !DecodeLoop(d, st, b).Failed?
    ensures Canonical(d, DecodeLoop(d, st, b).st.m)
    decreases |b|, 3
  {
    if b != [] {
      match DecodeTag(b)
      case Tag(tag, wireType, rest) =>
        match FindTag(d, tag) {
          case Some(i) => FieldCanonical(d, st, i, wireType, rest);
          case None =>
        }
        var step := DecodeRecord(d, st, b);
        LoopCanonical(d, step.st, step.rest);
      case _ =>
    }
  }

  // pb_decode_noinit keeps a struct canonical, on every input it accepts.
  lemma {:induction false} MessageCanonical(d: seq<Field>, m: Struct, b: seq<byte>)
    requires WellFormedTable(d) && Canonical(d, m) && DecodeNoinit(d, m, b).Ok?
    ensures Canonical(d, DecodeNoinit(d, m, b).value)
    decreases |b|, 4
  {
    LoopCanonical(d, Start(m), b);
  }

  // What pb_decode accepted can be encoded again, and decoding that gives the same
  // struct back: for structs whose fixed count arrays were all received.
  lemma DecodedReencodes(d: seq<Field>, b: seq<byte>)
    requires WellFormedTable(d) && Decode(d, b).Ok? && Complete(d, Decode(d, b).value)
    ensures
      var m := Decode(d, b).value;
      Encode(d, m).Some? && (|Encode(d, m).value| < TWO_TO_32 ==> Decode(d, Encode(d, m).value) == Ok(m, []))
  {
    DefaultsSafe(d);
    DecodedMessageSafe(d, Defaults(d), b);
    DefaultsCanonical(d);
    MessageCanonical(d, Defaults(d), b);
    ExactRoundTrip(d, Decode(d, b).value);
  }
}
