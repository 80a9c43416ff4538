// The bytes pb_encode.c produces for a struct, as functions of its contents.
// `None` is the error return.  A struct that does not have the shape its table
// describes has no meaning in C; it is given `None` as well.
module EncodeSpec {
  import opened Wrappers
  import opened Bits
  import opened Varint
  import opened Descriptor
  import opened Integers

  type Bytes = Option<seq<byte>>

  function Cat(a: Bytes, b: Bytes): Bytes {
    if a.Some? && b.Some? then Some(a.value + b.value) else None
  }

  // pb_encode_tag
  function EncodeTag(wireType: nat, tag: nat): seq<byte> {
    EncodeVarint(tag * 8 + wireType)
  }

  // pb_encode_tag_for_field
  function TagFor(f: Field): seq<byte> {
    EncodeTag(WireType(f.ltype), f.tag)
  }

  // pb_encode_fixed32 and pb_encode_fixed64
  function LittleEndian(v: nat, n: nat): (s: seq<byte>)
    ensures |s| == n
  {
    if n == 0 then [] else [v % 256] + LittleEndian(v / 256, n - 1)
  }

  // The four bytes of a word, taken with shifts and masks.
  function WordBytes(val: nat): seq<byte> {
    [val % 0x100, val / 0x100 % 0x100, val / 0x1_0000 % 0x100, val / 0x100_0000 % 0x100]
  }

  lemma FourDigits(val: nat, n: nat)
    requires n >= 4
    ensures LittleEndian(val, n) == WordBytes(val) + LittleEndian(val / 0x1_0000_0000, n - 4)
  {
    var v1, v2, v3 := val / 256, val / 256 / 256, val / 256 / 256 / 256;
    assert v2 == val / 0x1_0000 && v3 == val / 0x100_0000 && v3 / 256 == val / 0x1_0000_0000;
    assert LittleEndian(val, n) == [val % 256] + LittleEndian(v1, n - 1);
    assert LittleEndian(v1, n - 1) == [v1 % 256] + LittleEndian(v2, n - 2);
    assert LittleEndian(v2, n - 2) == [v2 % 256] + LittleEndian(v3, n - 3);
    assert LittleEndian(v3, n - 3) == [v3 % 256] + LittleEndian(v3 / 256, n - 4);
  }

  // pb_encode_string, and every other length-prefixed payload
  function Delimited(body: seq<byte>): seq<byte> {
    EncodeVarint(|body|) + body
  }

  // The field encoders for everything but submessages.
  function EncodeScalar(f: Field, v: Value): Bytes {
    match f.ltype
    case BOOL =>
      if v.VBool? then Some(EncodeVarint(if v.b then 1 else 0)) else None
    case VARINT =>
      if v.VInt? && IntegerSize(f.dataSize) then Some(EncodeVarint(VarintPayload(v.i))) else None
    case UVARINT =>
      if v.VInt? && IntegerSize(f.dataSize) && UnsignedRange(v.i, f.dataSize) then Some(EncodeVarint(v.i)) else None
    case SVARINT =>
      if v.VInt? && IntegerSize(f.dataSize) then Some(EncodeVarint(ZigZag(v.i))) else None
    case FIXED32 =>
      if v.VInt? && UnsignedRange(v.i, 4) then Some(LittleEndian(v.i, 4)) else None
    case FIXED64 =>
      if v.VInt? && UnsignedRange(v.i, 8) then Some(LittleEndian(v.i, 8)) else None
    case BYTES =>
      if v.VBytes? && |v.data| + BYTES_HEADER <= f.dataSize then Some(Delimited(v.data)) else None
    case STRING =>
      if v.VBytes? && |v.data| <= f.dataSize then Some(Delimited(v.data)) else None
    case FIXED_LENGTH_BYTES =>
      if v.VBytes? && |v.data| == f.dataSize then Some(Delimited(v.data)) else None
    case SUBMESSAGE(_) =>
      None
  }

  // A value without its tag.
  ghost function EncodeValue(f: Field, v: Value): Bytes
    decreases f, 1
  {
    match f.ltype
    case SUBMESSAGE(fields) =>
      if !v.VMsg? then None else
      var body := EncodeFrom(fields, v.m, 0);
      if body.None? then None else Some(Delimited(body.value))
    case _ =>
      EncodeScalar(f, v)
  }

  // The payload of a packed array.
  function PackedItems(f: Field, items: seq<Value>): Bytes {
    if items == [] then Some([]) else Cat(EncodeScalar(f, items[0]), PackedItems(f, items[1..]))
  }

  // An entry takes at most ten bytes.
  lemma {:induction false} PackedBound(f: Field, items: seq<Value>)
    requires Packable(f.ltype) && PackedItems(f, items).Some?
    ensures |PackedItems(f, items).value| <= 10 * |items|
    ensures f.ltype.FIXED32? ==> |PackedItems(f, items).value| == 4 * |items|
    ensures f.ltype.FIXED64? ==> |PackedItems(f, items).value| == 8 * |items|
  {
    if items != [] {
      PackedBound(f, items[1..]);
      var v := items[0];
      match f.ltype
      case BOOL => EncodeVarintFitsBuffer(if v.b then 1 else 0);
      case VARINT => EncodeVarintFitsBuffer(VarintPayload(v.i));
      case UVARINT => EncodeVarintFitsBuffer(v.i);
      case SVARINT => EncodeVarintFitsBuffer(ZigZag(v.i));
      case FIXED32 | FIXED64 =>
    }
  }

  // The records of an unpacked array.
  ghost function UnpackedItems(f: Field, items: seq<Value>): Bytes
    decreases f, 2, |items|
  {
    if items == [] then Some([])
    else Cat(Cat(Some(TagFor(f)), EncodeValue(f, items[0])), UnpackedItems(f, items[1..]))
  }

  // encode_array
  ghost function EncodeArray(f: Field, items: seq<Value>): Bytes
    decreases f, 3
  {
    if items == [] then Some([])
    else if |items| > f.arraySize then None
    else if Packable(f.ltype) then
      var body := PackedItems(f, items);
      if body.None? then None else Some(EncodeTag(WT_STRING, f.tag) + Delimited(body.value))
    else UnpackedItems(f, items)
  }

  // pb_check_proto3_default_value
  ghost predicate IsDefault(f: Field, slot: Slot)
    decreases f, 1
  {
    match f.htype
    case REQUIRED => false
    case REPEATED => Counted(f) && slot == Arr([])
    case ONEOF => slot.UnionNone?
    case OPTIONAL => if HasFlag(f) then slot.Opt? && !slot.has else slot.Single? && IsZero(f, slot.v)
  }

  // The part of pb_check_proto3_default_value for proto3 singular fields.
  ghost predicate IsZero(f: Field, v: Value)
    decreases f, 0
  {
    match f.ltype
    case BOOL => v == VBool(false)
    case VARINT | UVARINT | SVARINT | FIXED32 | FIXED64 => v == VInt(0)
    case BYTES | STRING => v == VBytes([])
    case FIXED_LENGTH_BYTES => f.dataSize == 0
    case SUBMESSAGE(fields) =>
      v.VMsg? && forall i :: 0 <= i < |fields| ==>
        fields[i].member in v.m && IsDefault(fields[i], v.m[fields[i].member])
  }

  // encode_basic_field
  ghost function EncodeField(f: Field, slot: Slot): Bytes
    decreases f, 4
  {
    match f.htype
    case REQUIRED =>
      if slot.Single? then Cat(Some(TagFor(f)), EncodeValue(f, slot.v)) else None
    case OPTIONAL =>
      if HasFlag(f) then
        if !slot.Opt? then None
        else if slot.has then Cat(Some(TagFor(f)), EncodeValue(f, slot.content))
        else Some([])
      else
        if !slot.Single? then None
        else if IsZero(f, slot.v) then Some([])
        else Cat(Some(TagFor(f)), EncodeValue(f, slot.v))
    case REPEATED =>
      if !slot.Arr? || (FixedCount(f) && |slot.items| != f.arraySize) then None
      else EncodeArray(f, slot.items)
    case ONEOF =>
      if slot.Union? && slot.which == f.tag then Cat(Some(TagFor(f)), EncodeValue(f, slot.payload))
      else if slot.Union? || slot.UnionNone? then Some([])
      else None
  }

  // pb_encode, from the i-th entry of the table.
  ghost function EncodeFrom(d: seq<Field>, m: Struct, i: nat): Bytes
    requires i <= |d|
    decreases d, |d| - i
  {
    if i == |d| then Some([])
    else if d[i].member !in m then None
    else Cat(EncodeField(d[i], m[d[i].member]), EncodeFrom(d, m, i + 1))
  }

  ghost function Encode(d: seq<Field>, m: Struct): Bytes {
    EncodeFrom(d, m, 0)
  }

  // What every C struct satisfies: a fixed-size integer fits its type, and no
  // submessage reaches 2^64 bytes, so that its length fits in a size_t.
  ghost predicate ShapedValue(f: Field, v: Value)
    decreases f, 0
  {
    && (f.ltype.FIXED32? || f.ltype.FIXED64? ==> EncodeScalar(f, v).Some?)
    && (f.ltype.SUBMESSAGE? && v.VMsg? ==>
      && Shaped(f.ltype.fields, v.m)
      && (Encode(f.ltype.fields, v.m).Some? ==> |Encode(f.ltype.fields, v.m).value| < TWO_TO_64))
  }

  ghost predicate ShapedSlot(f: Field, slot: Slot)
    decreases f, 1
  {
    match slot
    case Single(v) => ShapedValue(f, v)
    case Opt(_, v) => ShapedValue(f, v)
    case Arr(items) => forall v :: v in items ==> ShapedValue(f, v)
    case UnionNone => true
    case Union(which, v) => which == f.tag ==> ShapedValue(f, v)
  }

  ghost predicate Shaped(d: seq<Field>, m: Struct)
    decreases d
  {
    forall i :: 0 <= i < |d| && d[i].member in m ==> ShapedSlot(d[i], m[d[i].member])
  }
}
