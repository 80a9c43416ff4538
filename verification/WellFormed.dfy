// Which field tables the generator emits, and which structs fit them.
module WellFormed {
  import opened Wrappers
  import opened Descriptor
  import opened Integers

  // ------------------------------------------------------------------- tables

  // A proto3 singular field.
  predicate Singular(f: Field) {
    f.htype.OPTIONAL? && !HasFlag(f)
  }

  ghost predicate WellFormedField(f: Field)
    decreases f
  {
    && f.atype.STATIC?
    && 0 < f.tag < 0x2000_0000
    && f.dataSize <= PB_SIZE_MAX
    && (f.htype.REPEATED? ==> 0 < f.arraySize <= PB_SIZE_MAX)
    && (f.initial.Some? ==> !Singular(f) && !f.ltype.SUBMESSAGE? && SafeScalar(f, f.initial.value))
    && match f.ltype
       case BOOL => f.dataSize == 1
       case VARINT | UVARINT | SVARINT => IntegerSize(f.dataSize)
       case FIXED32 => f.dataSize == 4
       case FIXED64 => f.dataSize == 8
       case BYTES => BYTES_HEADER <= f.dataSize
       case STRING => 0 < f.dataSize
       case SUBMESSAGE(fields) => WellFormedTable(fields)
       case _ => true
  }

  // Tags are unique; only the entries of a oneof share a member.
  ghost predicate WellFormedTable(d: seq<Field>)
    decreases d
  {
    && (forall i :: 0 <= i < |d| ==> WellFormedField(d[i]))
    && (forall i, j :: 0 <= i < j < |d| ==> d[i].tag != d[j].tag)
    && (forall i, j :: 0 <= i < j < |d| && d[i].member == d[j].member ==> d[i].htype.ONEOF? && d[j].htype.ONEOF?)
  }

  lemma {:induction false} FindTagUnique(d: seq<Field>, i: nat)
    requires i < |d| && forall i, j :: 0 <= i < j < |d| ==> d[i].tag != d[j].tag
    ensures FindTag(d, d[i].tag) == Some(i)
  {
    if i < |d| - 1 {
      FindTagUnique(d[..|d| - 1], i);
    }
  }

  lemma MemberEntry(d: seq<Field>, i: nat)
    requires WellFormedTable(d) && i < |d|
    ensures d[i].member in Members(d)
    ensures var j := IndexOf(d, d[i].member); d[j].htype == d[i].htype && (!d[i].htype.ONEOF? ==> j == i)
  {
    var j := IndexOf(d, d[i].member);
  }

  lemma DefaultsAt(d: seq<Field>, i: nat)
    requires WellFormedTable(d) && i < |d|
    ensures d[i].member in Members(d)
    ensures Defaults(d)[d[i].member] == DefaultSlot(d[i])
  {
    MemberEntry(d, i);
  }

  // ------------------------------------------------------------------ structs

  // A value its C type can hold, within the bounds the table gives.
  predicate SafeScalar(f: Field, v: Value) {
    match f.ltype
    case BOOL => v.VBool?
    case VARINT | SVARINT => v.VInt? && IntegerSize(f.dataSize) && SignedRange(v.i, f.dataSize)
    case UVARINT => v.VInt? && IntegerSize(f.dataSize) && UnsignedRange(v.i, f.dataSize)
    case FIXED32 => v.VInt? && UnsignedRange(v.i, 4)
    case FIXED64 => v.VInt? && UnsignedRange(v.i, 8)
    case BYTES => v.VBytes? && |v.data| + BYTES_HEADER <= f.dataSize
    case STRING => v.VBytes? && |v.data| < f.dataSize && 0 !in v.data
    case FIXED_LENGTH_BYTES => v.VBytes? && |v.data| == f.dataSize
    case SUBMESSAGE(_) => false
  }

  ghost predicate SafeValue(f: Field, v: Value)
    decreases f, 0
  {
    match f.ltype
    case SUBMESSAGE(fields) => v.VMsg? && Safe(fields, v.m)
    case _ => SafeScalar(f, v)
  }

  // The slot of the i-th entry's member.
  ghost predicate SafeSlot(d: seq<Field>, i: nat, slot: Slot)
    requires i < |d|
    decreases d, 0
  {
    match d[i].htype
    case REQUIRED => slot.Single? && SafeValue(d[i], slot.v)
    case OPTIONAL =>
      if HasFlag(d[i]) then slot.Opt? && SafeValue(d[i], slot.content) else slot.Single? && SafeValue(d[i], slot.v)
    case REPEATED =>
      slot.Arr? && |slot.items| <= d[i].arraySize && forall v :: v in slot.items ==> SafeValue(d[i], v)
    case ONEOF =>
      slot.UnionNone? || (
        && slot.Union?
        && exists j ::
          0 <= j < |d| && d[j].tag == slot.which && d[j].member == d[i].member && SafeValue(d[j], slot.payload))
  }

  // Every member is present with contents in bounds: array counts at most the
  // array size, strings terminated, which_ zero or the tag of a oneof entry.
  ghost predicate Safe(d: seq<Field>, m: Struct)
    decreases d, 1
  {
    && m.Keys == Members(d)
    && forall i :: 0 <= i < |d| ==> SafeSlot(d, i, m[d[i].member])
  }

  // All entries of every fixed count array that is present have been filled in.
  ghost predicate CompleteValue(f: Field, v: Value)
    decreases f, 0
  {
    f.ltype.SUBMESSAGE? ==> v.VMsg? && Complete(f.ltype.fields, v.m)
  }

  ghost predicate CompleteSlot(d: seq<Field>, i: nat, slot: Slot)
    requires i < |d|
    decreases d, 0
  {
    match slot
    case Single(v) => CompleteValue(d[i], v)
    case Opt(has, v) => has ==> CompleteValue(d[i], v)
    case Arr(items) =>
      (FixedCount(d[i]) ==> |items| == d[i].arraySize) && forall v :: v in items ==> CompleteValue(d[i], v)
    case UnionNone => true
    case Union(which, v) => which == d[i].tag ==> CompleteValue(d[i], v)
  }

  ghost predicate Complete(d: seq<Field>, m: Struct)
    decreases d, 1
  {
    forall i :: 0 <= i < |d| ==> d[i].member in m && CompleteSlot(d, i, m[d[i].member])
  }

  // --------------------------------------------------------------- projection

  // The part of a value that the entry f describes.
  ghost function ProjectValue(f: Field, v: Value): Value
    decreases f, 0
  {
    if f.ltype.SUBMESSAGE? && v.VMsg? then VMsg(Project(f.ltype.fields, v.m)) else v
  }

  ghost function ProjectItems(f: Field, items: seq<Value>): seq<Value>
    decreases f, 1
  {
    seq(|items|, k requires 0 <= k < |items| => ProjectValue(f, items[k]))
  }

  // What remains of the slot of the i-th entry's member when absent optional
  // contents are forgotten, and oneof choices the table does not know.
  ghost function ProjectSlot(d: seq<Field>, i: nat, slot: Slot): Slot
    requires i < |d|
    decreases d, 0
  {
    match slot
    case Single(v) => Single(ProjectValue(d[i], v))
    case Opt(has, v) => Opt(has, if has then ProjectValue(d[i], v) else DefaultValue(d[i]))
    case Arr(items) => Arr(ProjectItems(d[i], items))
    case UnionNone => UnionNone
    case Union(which, v) =>
      match FindTag(d, which)
      case Some(j) => if d[j].member == d[i].member then Union(which, ProjectValue(d[j], v)) else UnionNone
      case None => UnionNone
  }

  // The contents of a struct as far as the table d describes them.
  ghost function Project(d: seq<Field>, m: Struct): Struct
    decreases d, 1
  {
    map k | k in Members(d) && k in m :: ProjectSlot(d, IndexOf(d, k), m[k])
  }

  // d' describes a part of what d describes: some of its fields, with
  // submessages narrowed in the same way.  Order and struct layout may differ.
  ghost predicate NarrowerField(f': Field, f: Field)
    decreases f', 0
  {
    && f'.tag == f.tag && f'.htype == f.htype && f'.member == f.member
    && (f'.sizeOffset == 0 <==> f.sizeOffset == 0)
    && f'.arraySize == f.arraySize
    && if f'.ltype.SUBMESSAGE? && f.ltype.SUBMESSAGE? then Narrower(f'.ltype.fields, f.ltype.fields)
       else f'.ltype == f.ltype && f'.dataSize == f.dataSize
  }

  ghost predicate HasCounterpart(f': Field, d: seq<Field>)
    decreases f', 1
  {
    exists i :: 0 <= i < |d| && NarrowerField(f', d[i])
  }

  ghost predicate Narrower(d': seq<Field>, d: seq<Field>)
    decreases d', 2
  {
    forall i :: 0 <= i < |d'| ==> HasCounterpart(d'[i], d)
  }

  lemma {:induction false} NarrowerReflexive(d: seq<Field>)
    ensures Narrower(d, d)
    decreases d
  {
    forall i | 0 <= i < |d|
      ensures HasCounterpart(d[i], d)
    {
      if d[i].ltype.SUBMESSAGE? {
        NarrowerReflexive(d[i].ltype.fields);
      }
      assert NarrowerField(d[i], d[i]);
    }
  }
}
