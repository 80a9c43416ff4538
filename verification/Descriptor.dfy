// Field tables (pb.h) and the message structs they describe.
module Descriptor {
  import opened Wrappers
  import opened Bits

  // The type bits of pb_field_t: data type, repetition rule and allocation.
  // The extension placeholder is not part of this model.
  datatype LType =
    | BOOL | VARINT | UVARINT | SVARINT | FIXED32 | FIXED64
    | BYTES | STRING | SUBMESSAGE(fields: seq<Field>) | FIXED_LENGTH_BYTES
  datatype HType = REQUIRED | OPTIONAL | REPEATED | ONEOF
  datatype AType = STATIC | HEAP | CALLBACK

  // One pb_field_t.  `member` is the C struct member the entry describes; the
  // entries of one oneof share the name of their union.  `initial` is the default
  // that `ptr` points to.  The offsets are those the PB_DATAOFFSET_ macros leave.
  datatype Field = Field(
    tag: nat,
    ltype: LType,
    htype: HType,
    atype: AType,
    member: string,
    dataOffset: nat,
    sizeOffset: int,
    dataSize: nat,
    arraySize: nat,
    initial: Option<Value>)

  // The contents of a struct, by member.  Strings are held up to their
  // terminator, byte arrays up to their size, integers as their value.
  datatype Value =
    | VBool(b: bool)
    | VInt(i: int)
    | VBytes(data: seq<byte>)
    | VMsg(m: Struct)
  datatype Slot =
    | Single(v: Value)                    // required, or proto3 singular
    | Opt(has: bool, content: Value)      // with a has_ flag
    | Arr(items: seq<Value>)              // the entries up to the count
    | UnionNone                           // which_ is 0
    | Union(which: nat, payload: Value)
  type Struct = map<string, Slot>

  // The largest value of pb_size_t, for the three builds pb.h allows.
  type SizeMax = n: nat | n == 0xFF || n == 0xFFFF || n == 0xFFFF_FFFF witness 0xFF
  const PB_SIZE_MAX: SizeMax

  // sizeof(pb_size_t)
  const COUNT_SIZE: nat :=
    if PB_SIZE_MAX == 0xFF then 1 else if PB_SIZE_MAX == 0xFFFF then 2 else 4

  // offsetof(pb_bytes_array_t, bytes)
  const BYTES_HEADER: nat := COUNT_SIZE

  const MAX_REQUIRED_FIELDS: nat := 64

  // Wire types
  const WT_VARINT: nat := 0
  const WT_64BIT: nat := 1
  const WT_STRING: nat := 2
  const WT_32BIT: nat := 5

  // PB_LTYPE(type) <= PB_LTYPE_LAST_PACKABLE
  predicate Packable(t: LType) {
    t.BOOL? || t.VARINT? || t.UVARINT? || t.SVARINT? || t.FIXED32? || t.FIXED64?
  }

  // The wire type pb_encode_tag_for_field picks.
  function WireType(t: LType): nat {
    match t
    case BOOL | VARINT | UVARINT | SVARINT => WT_VARINT
    case FIXED32 => WT_32BIT
    case FIXED64 => WT_64BIT
    case BYTES | STRING | SUBMESSAGE(_) | FIXED_LENGTH_BYTES => WT_STRING
  }

  // An optional field with a has_ flag; without one it is a proto3 singular field.
  predicate HasFlag(f: Field) {
    f.htype.OPTIONAL? && f.sizeOffset != 0
  }

  // A repeated field whose entries are counted in the struct.
  predicate Counted(f: Field) {
    f.htype.REPEATED? && f.sizeOffset != 0
  }

  // A repeated field of fixed length, with no count in the struct.
  predicate FixedCount(f: Field) {
    f.htype.REPEATED? && f.sizeOffset == 0
  }

  ghost function Members(d: seq<Field>): set<string> {
    set i | 0 <= i < |d| :: d[i].member
  }

  // The entry with the given tag, if any.
  function FindTag(d: seq<Field>, tag: nat): (r: Option<nat>)
    ensures r.Some? ==> r.value < |d| && d[r.value].tag == tag
    ensures r.None? ==> forall i :: 0 <= i < |d| ==> d[i].tag != tag
  {
    if d == [] then None
    else if d[|d| - 1].tag == tag then Some(|d| - 1)
    else FindTag(d[..|d| - 1], tag)
  }

  // The first entry that describes the given member.
  ghost function IndexOf(d: seq<Field>, k: string): (i: nat)
    requires k in Members(d)
    ensures i < |d| && d[i].member == k
  {
    var i :| 0 <= i < |d| && d[i].member == k;
    i
  }

  // ------------------------------------------------------------------ defaults

  function Zeros(n: nat): seq<byte> {
    seq(n, _ => 0)
  }

  // pb_field_set_to_default for the data of a field: a submessage recursively,
  // else the default value, else zeros.
  ghost function DefaultValue(f: Field): Value
    decreases f, 1
  {
    match f.ltype
    case SUBMESSAGE(fields) => VMsg(Defaults(fields))
    case _ => if f.initial.Some? then f.initial.value else ZeroValue(f)
  }

  function ZeroValue(f: Field): Value {
    match f.ltype
    case BOOL => VBool(false)
    case VARINT | UVARINT | SVARINT | FIXED32 | FIXED64 => VInt(0)
    case BYTES | STRING => VBytes([])
    case FIXED_LENGTH_BYTES => VBytes(Zeros(f.dataSize))
    case SUBMESSAGE(_) => VMsg(map[])
  }

  // The whole slot: has_ false, count 0, which_ 0.  The entries of an array are
  // left alone by the code, so none of them has a known value.
  ghost function DefaultSlot(f: Field): Slot
    decreases f, 2
  {
    match f.htype
    case REQUIRED => Single(DefaultValue(f))
    case OPTIONAL => if HasFlag(f) then Opt(false, DefaultValue(f)) else Single(DefaultValue(f))
    case REPEATED => Arr([])
    case ONEOF => UnionNone
  }

  // pb_message_set_to_defaults
  ghost function Defaults(d: seq<Field>): (m: Struct)
    ensures m.Keys == Members(d)
    decreases d, 0
  {
    map k | k in Members(d) :: DefaultSlot(d[IndexOf(d, k)])
  }
}
