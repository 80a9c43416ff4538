// Fields that no record has set: what their members hold, and which of them must not be
// missing.
module Unset {
  import opened Bits
  import opened Descriptor
  import opened EncodeSpec
  import opened DecodeSpec
  import opened WellFormed
  import opened RoundTrip

  // False, zero, nothing, or zero bytes.
  predicate Blank(f: Field, v: Value) {
    match f.ltype
    case BOOL => v == VBool(false)
    case VARINT | UVARINT | SVARINT | FIXED32 | FIXED64 => v == VInt(0)
    case BYTES | STRING => v == VBytes([])
    case FIXED_LENGTH_BYTES => v.VBytes? && |v.data| == f.dataSize && (forall b :: b in v.data ==> b == 0)
    case SUBMESSAGE(_) => false
  }

  // A value that was never set: the default value that the table gives, if any, and all
  // members of a submessage likewise.
  ghost predicate UnsetValue(f: Field, v: Value)
    decreases f, 0
  {
    match f.ltype
    case SUBMESSAGE(fields) => v.VMsg? && AllUnset(fields, v.m)
    case _ => if f.initial.Some? then v == f.initial.value else Blank(f, v)
  }

  // A slot that was never set: has_ is false, the count 0, which_ 0.
  ghost predicate UnsetSlot(f: Field, slot: Slot)
    decreases f, 1
  {
    match f.htype
    case REQUIRED => slot.Single? && UnsetValue(f, slot.v)
    case OPTIONAL =>
      if f.sizeOffset != 0 then slot.Opt? && !slot.has && UnsetValue(f, slot.content)
      else slot.Single? && UnsetValue(f, slot.v)
    case REPEATED => slot == Arr([])
    case ONEOF => slot == UnionNone
  }

  ghost predicate AllUnset(d: seq<Field>, m: Struct)
    decreases d
  {
    forall i :: 0 <= i < |d| ==> d[i].member in m && UnsetSlot(d[i], m[d[i].member])
  }

  // ------------------------------------------------------------------ defaults

  lemma {:induction false} DefaultUnset(f: Field)
    requires WellFormedField(f)
    ensures UnsetValue(f, DefaultValue(f))
    decreases f, 0
  {
    match f.ltype
    case SUBMESSAGE(fields) => DefaultsUnset(fields);
    case _ =>
  }

  // pb_message_set_to_defaults leaves every member unset, at every depth.
  lemma {:induction false} DefaultsUnset(d: seq<Field>)
    requires WellFormedTable(d)
    ensures AllUnset(d, Defaults(d))
    decreases d
  {
    forall i | 0 <= i < |d|
      ensures d[i].member in Defaults(d) && UnsetSlot(d[i], Defaults(d)[d[i].member])
    {
      DefaultsAt(d, i);
      DefaultUnset(d[i]);
    }
  }

  lemma SlotUnset(f: Field)
    requires WellFormedField(f)
    ensures UnsetSlot(f, DefaultSlot(f))
  {
    DefaultUnset(f);
  }

  // ---------------------------------------------------------- without a record

  // Decoding b from st comes upon a record of a field with the given property.
  ghost predicate Comes(d: seq<Field>, st: LoopState, b: seq<byte>, which: set<nat>)
    decreases |b|
  {
    b != [] &&
    match DecodeTag(b)
    case Tag(tag, _, _) =>
      || (FindTag(d, tag).Some? && FindTag(d, tag).value in which)
      || (match DecodeRecord(d, st, b)
          case Next(st', rest) => Comes(d, st', rest, which)
          case _ => false)
    case _ => false
  }

  // The entries of a table that share a member.
  ghost function Entries(d: seq<Field>, member: string): set<nat> {
    set i | 0 <= i < |d| && d[i].member == member
  }

  lemma RecordLeaves(d: seq<Field>, st: LoopState, b: seq<byte>, member: string)
    requires b != [] && !Comes(d, st, b, Entries(d, member)) && DecodeRecord(d, st, b).Next? && member in st.m
    ensures
      var r := DecodeRecord(d, st, b);
      member in r.st.m && r.st.m[member] == st.m[member] && !Comes(d, r.st, r.rest, Entries(d, member))
  {
    var tag := DecodeTag(b);
    match FindTag(d, tag.tag) {
      case Some(i) =>
        assert d[i].member != member;
        assert DecodeField(d, st, i, tag.wireType, tag.rest).Next?;
      case None =>
    }
  }

  // A member of which no record comes keeps what it holds.
  lemma {:induction false} LoopLeaves(d: seq<Field>, st: LoopState, b: seq<byte>, member: string)
    requires member in st.m && !Comes(d, st, b, Entries(d, member)) && !DecodeLoop(d, st, b).Failed?
    ensures
      var end := DecodeLoop(d, st, b).st;
      member in end.m && end.m[member] == st.m[member]
    decreases |b|
  {
    if b != [] {
      var r := DecodeRecord(d, st, b);
      if r.Next? {
        RecordLeaves(d, st, b, member);
        LoopLeaves(d, r.st, r.rest, member);
      }
    }
  }

  // After pb_decode a field of which no record came, nor of its union, is unset.
  lemma DecodedUnset(d: seq<Field>, b: seq<byte>, i: nat)
    requires WellFormedTable(d) && i < |d| && Decode(d, b).Ok?
    requires !Comes(d, Start(Defaults(d)), b, Entries(d, d[i].member))
    ensures d[i].member in Decode(d, b).value && UnsetSlot(d[i], Decode(d, b).value[d[i].member])
  {
    DefaultsUnset(d);
    LoopLeaves(d, Start(Defaults(d)), b, d[i].member);
  }

  // After pb_decode_noinit it holds what it held.
  lemma MergedKeeps(d: seq<Field>, m: Struct, b: seq<byte>, i: nat)
    requires i < |d| && d[i].member in m && DecodeNoinit(d, m, b).Ok?
    requires !Comes(d, Start(m), b, Entries(d, d[i].member))
    ensures d[i].member in DecodeNoinit(d, m, b).value
    ensures DecodeNoinit(d, m, b).value[d[i].member] == m[d[i].member]
  {
    LoopLeaves(d, Start(m), b, d[i].member);
  }

  // What a round trip keeps of an unset struct is unset.
  lemma {:induction false} UnsetProjection(d: seq<Field>, m: Struct)
    requires WellFormedTable(d) && AllUnset(d, m)
    ensures AllUnset(d, Project(d, m))
    decreases d
  {
    forall i | 0 <= i < |d|
      ensures d[i].member in Project(d, m) && UnsetSlot(d[i], Project(d, m)[d[i].member])
    {
      var slot := m[d[i].member];
      ProjectAt(d, m, i);
      UnsetSlotProjection(d, i, slot);
    }
  }

  lemma {:induction false} UnsetSlotProjection(d: seq<Field>, i: nat, slot: Slot)
    requires WellFormedTable(d) && i < |d| && UnsetSlot(d[i], slot)
    ensures UnsetSlot(d[i], ProjectSlot(d, i, slot))
    decreases d, 0
  {
    DefaultUnset(d[i]);
    match slot
    case Single(v) =>
      if d[i].ltype.SUBMESSAGE? {
        UnsetProjection(d[i].ltype.fields, v.m);
      }
    case Arr(items) => assert ProjectItems(d[i], []) == [];
    case _ =>
  }

  // What pb_encode may leave out: an optional field without its flag, an empty array, a
  // union without a choice, a singular field that was never set.
  ghost predicate Absent(f: Field, slot: Slot) {
    match slot
    case Single(_) => f.htype.OPTIONAL? && UnsetSlot(f, slot)
    case Opt(has, _) => !has
    case Arr(items) => items == []
    case UnionNone => true
    case Union(_, _) => false
  }

  // Such a field comes back unset from a round trip.
  lemma AbsentComesBackUnset(d: seq<Field>, m: Struct, i: nat)
    requires WellFormedTable(d) && Safe(d, m) && Complete(d, m) && i < |d|
    ensures Encode(d, m).Some?
    ensures |Encode(d, m).value| < TWO_TO_32 && Absent(d[i], m[d[i].member]) ==>
      var r := Decode(d, Encode(d, m).value);
      r.Ok? && d[i].member in r.value && UnsetSlot(d[i], r.value[d[i].member])
  {
    var slot := m[d[i].member];
    MessageRoundTrip(d, m);
    assert SafeSlot(d, i, slot);
    if Absent(d[i], slot) {
      ProjectAt(d, m, i);
      DefaultUnset(d[i]);
      if slot.Arr? {
        assert ProjectItems(d[i], []) == [];
      } else if slot.Single? {
        UnsetSlotProjection(d, i, slot);
      }
    }
  }

  // ----------------------------------------------------------- required fields

  // The number of required fields before the i-th.
  ghost function RequiredUpTo(d: seq<Field>, i: nat): set<nat> {
    set j | 0 <= j < i && j < |d| && d[j].htype.REQUIRED?
  }

  lemma {:induction false} RequiredCounted(d: seq<Field>, i: nat)
    requires i <= |d|
    ensures |RequiredUpTo(d, i)| == RequiredBefore(d, i)
  {
    if i == 0 {
      assert RequiredUpTo(d, i) == {};
    } else {
      RequiredCounted(d, i - 1);
      assert RequiredUpTo(d, i) ==
        RequiredUpTo(d, i - 1) + if d[i - 1].htype.REQUIRED? then {i - 1} else {};
    }
  }

  lemma RecordSees(d: seq<Field>, st: LoopState, b: seq<byte>, i: nat)
    requires WellFormedTable(d) && i < |d| && d[i].htype.REQUIRED? && b != [] && DecodeRecord(d, st, b).Next?
    ensures
      var r := DecodeRecord(d, st, b);
      (i in r.st.seen || Comes(d, r.st, r.rest, {i})) <==> (i in st.seen || Comes(d, st, b, {i}))
  {
    var tag := DecodeTag(b);
    match FindTag(d, tag.tag) {
      case Some(j) => assert DecodeField(d, st, j, tag.wireType, tag.rest).Next?;
      case None =>
    }
  }

  lemma {:induction false} LoopSees(d: seq<Field>, st: LoopState, b: seq<byte>, i: nat)
    requires WellFormedTable(d) && i < |d| && d[i].htype.REQUIRED? && !DecodeLoop(d, st, b).Failed?
    ensures i in DecodeLoop(d, st, b).st.seen <==> i in st.seen || Comes(d, st, b, {i})
    decreases |b|
  {
    if b != [] {
      var r := DecodeRecord(d, st, b);
      if r.Next? {
        RecordSees(d, st, b, i);
        LoopSees(d, r.st, r.rest, i);
      }
    }
  }

  // A message is accepted exactly if its records are, the last array of fixed count is
  // complete, and of each of the first 64 required fields a record came.
  lemma RequiredExactly(d: seq<Field>, m: Struct, b: seq<byte>)
    requires WellFormedTable(d)
    ensures DecodeNoinit(d, m, b).Ok? <==>
      && !DecodeLoop(d, Start(m), b).Failed?
      && FixedComplete(d, DecodeLoop(d, Start(m), b).st)
      && forall i :: 0 <= i < |d| && d[i].htype.REQUIRED? && |RequiredUpTo(d, i)| < 64 ==> Comes(d, Start(m), b, {i})
  {
    if !DecodeLoop(d, Start(m), b).Failed? {
      forall i | 0 <= i < |d| && d[i].htype.REQUIRED?
        ensures |RequiredUpTo(d, i)| == RequiredBefore(d, i)
        ensures i in DecodeLoop(d, Start(m), b).st.seen <==> Comes(d, Start(m), b, {i})
      {
        RequiredCounted(d, i);
        LoopSees(d, Start(m), b, i);
      }
    }
  }
}
