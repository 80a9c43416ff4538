// pb_decode.c: the field decoders and the message loop, against DecodeSpec.
module Decoder {
  import opened Wrappers
  import opened Bits
  import opened Varint
  import opened Integers
  import opened Descriptor
  import opened DecodeSpec
  import opened WellFormed
  import opened InputStream
  import opened FieldIter
  import opened Writes
  import opened Bitmap
  import opened Required
  import opened Unset

  // ------------------------------------------------------------ field decoders

  // `wrote` is the number of bytes written from the destination on, or a bound for it,
  // whether the decoder succeeds or not.

  // pb_dec_bool
  method DecBool(s: IStream, f: Field) returns (ok: bool, v: Value, ghost wrote: nat)
    requires s.Valid() && f.ltype.BOOL?
    modifies s
    ensures s.Valid() && s.End() == old(s.End())
    ensures Gives(DecodeScalar(f, old(s.Remaining())), ok, v, s.Remaining())
    ensures wrote == if ok then 1 else 0
  {
    var value;
    ok, value := s.DecodeVarint32();
    v := VBool(value != 0);
    wrote := if ok then 1 else 0;
  }

  // pb_dec_varint
  method DecVarint(s: IStream, f: Field) returns (ok: bool, v: Value, ghost wrote: nat)
    requires s.Valid() && f.ltype.VARINT?
    modifies s
    ensures s.Valid() && s.End() == old(s.End())
    ensures Gives(DecodeScalar(f, old(s.Remaining())), ok, v, s.Remaining())
    ensures wrote <= f.dataSize && (ok ==> wrote == f.dataSize)
  {
    v, wrote := VInt(0), 0;
    var value;
    ok, value := s.DecodeVarint();
    if !ok {
      return;
    }
    var svalue := if f.dataSize == 8 then ToSigned(value, 8) else ToSigned(value, 4);
    var clamped;
    if IntegerSize(f.dataSize) {
      clamped := ToSigned(svalue, f.dataSize);
    } else {
      return false, v, 0;
    }
    wrote := f.dataSize;
    if clamped != svalue {
      return false, v, wrote;
    }
    v := VInt(clamped);
  }

  // pb_dec_uvarint
  method DecUvarint(s: IStream, f: Field) returns (ok: bool, v: Value, ghost wrote: nat)
    requires s.Valid() && f.ltype.UVARINT?
    modifies s
    ensures s.Valid() && s.End() == old(s.End())
    ensures Gives(DecodeScalar(f, old(s.Remaining())), ok, v, s.Remaining())
    ensures wrote <= f.dataSize && (ok ==> wrote == f.dataSize)
  {
    v, wrote := VInt(0), 0;
    var value;
    ok, value := s.DecodeVarint();
    if !ok {
      return;
    }
    var clamped;
    if IntegerSize(f.dataSize) {
      clamped := ToUnsigned(value, f.dataSize);
    } else {
      return false, v, 0;
    }
    wrote := f.dataSize;
    if clamped != value {
      return false, v, wrote;
    }
    v := VInt(clamped);
  }

  // pb_dec_svarint
  method DecSvarint(s: IStream, f: Field) returns (ok: bool, v: Value, ghost wrote: nat)
    requires s.Valid() && f.ltype.SVARINT?
    modifies s
    ensures s.Valid() && s.End() == old(s.End())
    ensures Gives(DecodeScalar(f, old(s.Remaining())), ok, v, s.Remaining())
    ensures wrote <= f.dataSize && (ok ==> wrote == f.dataSize)
  {
    v, wrote := VInt(0), 0;
    var raw;
    ok, raw := s.DecodeVarint();
    if !ok {
      return;
    }
    var value := UnZigZag(raw);
    var clamped;
    if IntegerSize(f.dataSize) {
      clamped := ToSigned(value, f.dataSize);
    } else {
      return false, v, 0;
    }
    wrote := f.dataSize;
    if clamped != value {
      return false, v, wrote;
    }
    v := VInt(clamped);
  }

  // Four bytes, combined with shifts.
  function Word(b: seq<byte>, at: nat): nat
    requires at + 4 <= |b|
  {
    (b[at] as int) + (b[at + 1] as int) * 0x100 + (b[at + 2] as int) * 0x1_0000 + (b[at + 3] as int) * 0x100_0000
  }

  lemma WordValue(b: seq<byte>, at: nat)
    requires at + 4 <= |b|
    ensures FromLittleEndian(b[at..]) == Word(b, at) + 0x1_0000_0000 * FromLittleEndian(b[at + 4..])
  {
    forall k | at <= k < at + 4
      ensures b[k..][0] == b[k] && b[k..][1..] == b[k + 1..]
    {
    }
    assert FromLittleEndian(b[at..]) == b[at] + 256 * FromLittleEndian(b[at + 1..]);
    assert FromLittleEndian(b[at + 1..]) == b[at + 1] + 256 * FromLittleEndian(b[at + 2..]);
    assert FromLittleEndian(b[at + 2..]) == b[at + 2] + 256 * FromLittleEndian(b[at + 3..]);
    assert FromLittleEndian(b[at + 3..]) == b[at + 3] + 256 * FromLittleEndian(b[at + 4..]);
  }

  // pb_decode_fixed32
  method DecFixed32(s: IStream, f: Field) returns (ok: bool, v: Value, ghost wrote: nat)
    requires s.Valid() && f.ltype.FIXED32?
    modifies s
    ensures s.Valid() && s.End() == old(s.End())
    ensures Gives(DecodeScalar(f, old(s.Remaining())), ok, v, s.Remaining())
    ensures wrote == if ok then 4 else 0
  {
    v, wrote := VInt(0), 0;
    var b;
    ok, b := s.Read(4);
    if ok {
      wrote := 4;
      v := VInt(Word(b, 0));
      WordValue(b, 0);
      assert b[0..] == b && b[4..] == [];
    }
  }

  // pb_decode_fixed64
  method DecFixed64(s: IStream, f: Field) returns (ok: bool, v: Value, ghost wrote: nat)
    requires s.Valid() && f.ltype.FIXED64?
    modifies s
    ensures s.Valid() && s.End() == old(s.End())
    ensures Gives(DecodeScalar(f, old(s.Remaining())), ok, v, s.Remaining())
    ensures wrote == if ok then 8 else 0
  {
    v, wrote := VInt(0), 0;
    var b;
    ok, b := s.Read(8);
    if ok {
      wrote := 8;
      v := VInt(Word(b, 0) + Word(b, 4) * 0x1_0000_0000);
      WordValue(b, 0);
      WordValue(b, 4);
      assert b[0..] == b && b[8..] == [];
    }
  }

  // pb_dec_bytes
  method DecBytes(s: IStream, f: Field) returns (ok: bool, v: Value, ghost wrote: nat)
    requires s.Valid() && f.ltype.BYTES?
    modifies s
    ensures s.Valid() && s.End() == old(s.End())
    ensures Gives(DecodeScalar(f, old(s.Remaining())), ok, v, s.Remaining())
    ensures wrote <= f.dataSize && (ok ==> wrote == BYTES_HEADER + |v.data|)
  {
    v, wrote := VBytes([]), 0;
    var size;
    ok, size := s.DecodeVarint32();
    if !ok || size > PB_SIZE_MAX {
      return false, v, 0;
    }
    var allocSize := size + BYTES_HEADER;
    if allocSize > f.dataSize {
      return false, v, 0;
    }
    wrote := allocSize;
    var data;
    ok, data := s.Read(size);
    v := VBytes(data);
  }

  lemma {:induction false} UpToNulShorter(b: seq<byte>)
    ensures |UpToNul(b)| <= |b|
  {
    if b != [] && b[0] != 0 {
      UpToNulShorter(b[1..]);
    }
  }

  lemma StringDecodes(f: Field, b: seq<byte>, size: nat, rest: seq<byte>)
    requires f.ltype.STRING? && DecodeVarint32(b) == Ok(size, rest)
    ensures DecodeScalar(f, b) ==
      if size + 1 > f.dataSize || |rest| < size then Err else Ok(VBytes(UpToNul(rest[..size])), rest[size..])
  {
  }

  lemma AllocSize(size: nat, dataSize: nat)
    requires size < 0x1_0000_0000 && dataSize <= PB_SIZE_MAX
    ensures
      var allocSize := (size + 1) % 0x1_0000_0000;
      if size + 1 > dataSize then allocSize < size || allocSize > dataSize else allocSize == size + 1
  {
  }

  // pb_dec_string
  method DecString(s: IStream, f: Field) returns (ok: bool, v: Value, ghost wrote: nat)
    requires s.Valid() && f.ltype.STRING? && f.dataSize <= PB_SIZE_MAX
    modifies s
    ensures s.Valid() && s.End() == old(s.End())
    ensures Gives(DecodeScalar(f, old(s.Remaining())), ok, v, s.Remaining())
    ensures wrote <= f.dataSize && (ok ==> wrote > |v.data|)
  {
    v, wrote := VBytes([]), 0;
    var size;
    ok, size := s.DecodeVarint32();
    if !ok {
      return;
    }
    StringDecodes(f, old(s.Remaining()), size, s.Remaining());
    AllocSize(size, f.dataSize);
    var allocSize := (size + 1) % 0x1_0000_0000;
    if allocSize < size || allocSize > f.dataSize {
      return false, v, 0;
    }
    wrote := allocSize;
    var data;
    ok, data := s.Read(size);
    v := VBytes(UpToNul(data));
    UpToNulShorter(data);
  }

  // pb_dec_fixed_length_bytes
  method DecFixedLengthBytes(s: IStream, f: Field) returns (ok: bool, v: Value, ghost wrote: nat)
    requires s.Valid() && f.ltype.FIXED_LENGTH_BYTES?
    modifies s
    ensures s.Valid() && s.End() == old(s.End())
    ensures Gives(DecodeScalar(f, old(s.Remaining())), ok, v, s.Remaining())
    ensures wrote <= f.dataSize && (ok ==> wrote == f.dataSize)
  {
    v, wrote := VBytes([]), 0;
    var size;
    ok, size := s.DecodeVarint32();
    if !ok || size > PB_SIZE_MAX {
      return false, v, 0;
    }
    if size == 0 {
      return true, VBytes(Zeros(f.dataSize)), f.dataSize;
    }
    if size != f.dataSize {
      return false, v, 0;
    }
    wrote := f.dataSize;
    var data;
    ok, data := s.Read(f.dataSize);
    v := VBytes(data);
  }

  // The PB_DECODERS entries for everything but submessages.
  method DecScalar(s: IStream, f: Field) returns (ok: bool, v: Value, ghost wrote: nat)
    requires s.Valid() && !f.ltype.SUBMESSAGE? && WellFormedField(f)
    modifies s
    ensures s.Valid() && s.End() == old(s.End())
    ensures Gives(DecodeScalar(f, old(s.Remaining())), ok, v, s.Remaining())
    ensures wrote <= f.dataSize
  {
    match f.ltype
    case BOOL => ok, v, wrote := DecBool(s, f);
    case VARINT => ok, v, wrote := DecVarint(s, f);
    case UVARINT => ok, v, wrote := DecUvarint(s, f);
    case SVARINT => ok, v, wrote := DecSvarint(s, f);
    case FIXED32 => ok, v, wrote := DecFixed32(s, f);
    case FIXED64 => ok, v, wrote := DecFixed64(s, f);
    case BYTES => ok, v, wrote := DecBytes(s, f);
    case STRING => ok, v, wrote := DecString(s, f);
    case FIXED_LENGTH_BYTES => ok, v, wrote := DecFixedLengthBytes(s, f);
  }

  // ------------------------------------------------------------------ defaults

  // pb_field_set_to_default.  The slot is as described if nothing else is overwritten.
  method FieldSetToDefault(f: Field, pData: int, pSize: int) returns (slot: Slot, ghost writes: set<Write>)
    requires WellFormedField(f)
    ensures DefaultFits(f) ==> slot == DefaultSlot(f) && UnsetSlot(f, slot)
    ensures writes == FieldDefaultWrites(f, pData, pSize)
    decreases f
  {
    writes := {};
    SlotUnset(f);
    if f.htype.REPEATED? || f.htype.ONEOF? {
      writes := FieldDefaultWrites(f, pData, pSize);
      return if f.htype.REPEATED? then Arr([]) else UnionNone, writes;
    }
    if f.htype.OPTIONAL? && f.sizeOffset != 0 {
      writes := {Fill(SizeRegion(f, pSize))};
    }
    var v;
    match f.ltype {
      case SUBMESSAGE(fields) =>
        var m;
        ghost var more;
        m, more := MessageSetToDefaults(fields, pData);
        v, writes := VMsg(m), writes + more;
      case _ =>
        v := if f.initial.Some? then f.initial.value else ZeroValue(f);
        writes := writes + {Fill(Region(pData, f.dataSize))};
    }
    slot := if f.htype.OPTIONAL? && f.sizeOffset != 0 then Opt(false, v) else Single(v);
  }

  // The entries of a oneof have the same default slot.
  lemma SharedDefault(d: seq<Field>, n: nat)
    requires WellFormedTable(d) && n < |d|
    ensures forall i :: 0 <= i < n && d[i].member == d[n].member ==> DefaultSlot(d[i]) == DefaultSlot(d[n])
  {
  }

  lemma AllDefaults(d: seq<Field>, m: Struct)
    requires WellFormedTable(d) && m.Keys == Members(d)
    requires forall i :: 0 <= i < |d| ==> m[d[i].member] == DefaultSlot(d[i])
    ensures m == Defaults(d)
  {
    forall k | k in Members(d)
      ensures m[k] == Defaults(d)[k]
    {
      DefaultsAt(d, IndexOf(d, k));
    }
  }

  // The struct after the first n fields have been set to their defaults.
  ghost predicate DefaultsUpTo(d: seq<Field>, m: Struct, n: nat)
    requires n <= |d|
  {
    && (forall k :: k in m <==> exists i :: 0 <= i < n && d[i].member == k)
    && forall i :: 0 <= i < n ==> m[d[i].member] == DefaultSlot(d[i])
  }

  lemma OneMoreDefault(d: seq<Field>, m: Struct, n: nat, slot: Slot)
    requires n < |d| && DefaultsUpTo(d, m, n) && slot == DefaultSlot(d[n])
    requires forall i :: 0 <= i < n && d[i].member == d[n].member ==> DefaultSlot(d[i]) == slot
    ensures DefaultsUpTo(d, m[d[n].member := slot], n + 1)
  {
  }

  ghost predicate DefaultsSoFar(d: seq<Field>, m: Struct, n: nat)
    requires n <= |d|
  {
    DefaultsFit(d) ==> DefaultsUpTo(d, m, n)
  }

  lemma NextDefault(d: seq<Field>, m: Struct, n: nat, slot: Slot)
    requires WellFormedTable(d) && n < |d| && DefaultsSoFar(d, m, n)
    requires DefaultFits(d[n]) ==> slot == DefaultSlot(d[n])
    ensures DefaultsSoFar(d, m[d[n].member := slot], n + 1)
  {
    if DefaultsFit(d) {
      SharedDefault(d, n);
      OneMoreDefault(d, m, n, slot);
    }
  }

  lemma LastDefault(d: seq<Field>, m: Struct)
    requires WellFormedTable(d) && DefaultsSoFar(d, m, |d|)
    ensures DefaultsFit(d) ==> m == Defaults(d)
  {
    if DefaultsFit(d) {
      AllDefaults(d, m);
    }
  }

  // A round of the loop of pb_message_set_to_defaults.
  method SetNextToDefault(iter: Iter, m0: Struct, ghost writes0: set<Write>)
    returns (m: Struct, ghost writes: set<Write>)
    requires iter.Valid() && iter.start != [] && iter.pSize != Counter && WellFormedTable(iter.start)
    requires DefaultsSoFar(iter.start, m0, iter.pos)
    requires writes0 == DefaultWrites(iter.start, iter.pos, iter.destStruct)
    ensures DefaultsSoFar(iter.start, m, iter.pos + 1)
    ensures writes == DefaultWrites(iter.start, iter.pos + 1, iter.destStruct)
    decreases iter.start, 0
  {
    var f := iter.start[iter.pos];
    var slot;
    slot, writes := FieldSetToDefault(f, iter.pData, iter.pSize.address);
    NextDefault(iter.start, m0, iter.pos, slot);
    m, writes := m0[f.member := slot], writes0 + writes;
  }

  // pb_message_set_to_defaults, for the struct at `dest`
  method MessageSetToDefaults(d: seq<Field>, dest: int) returns (m: Struct, ghost writes: set<Write>)
    requires WellFormedTable(d)
    ensures DefaultsFit(d) ==> m == Defaults(d) && AllUnset(d, m)
    ensures writes == DefaultWrites(d, |d|, dest)
    decreases d, 1
  {
    m, writes := map[], {};
    var iter := new Iter(d, dest);
    var more := d != [];
    ghost var done := 0;
    while more
      invariant iter.Valid() && iter.start == d && iter.destStruct == dest && fresh(iter) && iter.pSize != Counter
      invariant if more then iter.pos == done < |d| else done == |d|
      invariant DefaultsSoFar(d, m, done) && writes == DefaultWrites(d, done, dest)
      decreases |d| - done
    {
      m, writes := SetNextToDefault(iter, m, writes);
      done := done + 1;
      more := iter.Next();
    }
    LastDefault(d, m);
    DefaultsUnset(d);
  }

  // ------------------------------------------------------------ single fields

  // pb_dec_submessage, for the struct at `dest`.  All writes are recorded, also when
  // decoding fails.
  method DecSubmessage(s: IStream, f: Field, current: Value, dest: int)
    returns (ok: bool, v: Value, ghost writes: set<Write>)
    requires s.Valid() && WellFormedField(f) && f.ltype.SUBMESSAGE? && DecodingFits(f)
    modifies s
    ensures s.Valid() && s.End() <= old(s.End()) && (ok ==> s.End() == old(s.End()))
    ensures Gives(DecodeValue(f, current, old(s.Remaining())), ok, v, s.Remaining())
    ensures TidyItem(writes, f, dest)
    decreases s.bytesLeft, 0
  {
    v, writes := current, {};
    var sub;
    ok, sub := s.MakeSubstream();
    if !ok {
      return;
    }
    ghost var end := sub.End();
    var m := AsStruct(current);
    if f.htype.REPEATED? {
      m, writes := MessageSetToDefaults(f.ltype.fields, dest);
      TidyDefaults(f.ltype.fields, dest);
    }
    var status;
    ghost var more;
    status, m, more := DecodeInto(sub, f.ltype.fields, m, dest);
    TidyStructBoth(writes, more, f.ltype.fields, dest);
    writes := writes + more;
    TidySubmessage(writes, f, dest);
    ok := s.CloseSubstream(sub);
    ok := ok && status;
    v := VMsg(m);
  }

  // The PB_DECODERS entry of a field, called with a pointer to data_size bytes.
  method Dec(s: IStream, f: Field, current: Value, dest: int) returns (ok: bool, v: Value, ghost writes: set<Write>)
    requires s.Valid() && WellFormedField(f) && DecodingFits(f)
    modifies s
    ensures s.Valid() && s.End() <= old(s.End()) && (ok ==> s.End() == old(s.End()))
    ensures Gives(DecodeValue(f, current, old(s.Remaining())), ok, v, s.Remaining())
    ensures TidyItem(writes, f, dest)
    decreases s.bytesLeft, 1
  {
    if f.ltype.SUBMESSAGE? {
      ok, v, writes := DecSubmessage(s, f, current, dest);
    } else {
      ghost var wrote;
      ok, v, wrote := DecScalar(s, f);
      writes := {Write(Region(dest, wrote), Region(dest, f.dataSize))};
    }
  }

  // Counting an entry in the struct, or in the counter that stands in for its count.
  ghost function CountWrites(f: Field, pSize: SizePointer): set<Write> {
    if pSize.At? then {Fill(SizeRegion(f, pSize.address))} else {}
  }

  lemma CountTidy(f: Field, pData: int, pSize: SizePointer)
    requires f.htype.REPEATED? && (pSize == Counter <==> FixedCount(f))
    ensures Tidy(CountWrites(f, pSize), f, pData, Address(pSize, pData))
  {
  }

  // What is written for entry c, and for counting it.
  lemma EntryTidy(writes: set<Write>, more: set<Write>, f: Field, pData: int, pSize: SizePointer, c: nat)
    requires f.atype.STATIC? && f.htype.REPEATED? && (pSize == Counter <==> FixedCount(f)) && c < f.arraySize
    requires Tidy(writes, f, pData, Address(pSize, pData)) && TidyItem(more, f, Item(f, pData, c))
    ensures Tidy(writes + more, f, pData, Address(pSize, pData))
    ensures Tidy(writes + more + CountWrites(f, pSize), f, pData, Address(pSize, pData))
  {
    TidyArray(more, f, pData, Address(pSize, pData), c);
    TidyBoth(writes, more, f, pData, Address(pSize, pData));
    CountTidy(f, pData, pSize);
    TidyBoth(writes + more, CountWrites(f, pSize), f, pData, Address(pSize, pData));
  }

  // A round of the loop over a packed array.
  method DecodePackedItem(sub: IStream, f: Field, pData: int, pSize: SizePointer,
                          items0: seq<Value>, size0: nat, ghost writes0: set<Write>)
    returns (status: bool, items: seq<Value>, size: nat, ghost writes: set<Write>)
    requires sub.Valid() && sub.bytesLeft > 0 && size0 < f.arraySize
    requires WellFormedField(f) && f.htype.REPEATED? && !f.ltype.SUBMESSAGE? && (pSize == Counter <==> FixedCount(f))
    requires Tidy(writes0, f, pData, Address(pSize, pData))
    modifies sub
    ensures sub.Valid() && sub.End() == old(sub.End()) && (status ==> sub.bytesLeft < old(sub.bytesLeft))
    ensures DecodePacked(f, ArrayState(items0, size0), old(sub.Remaining()))
         == if status then DecodePacked(f, ArrayState(items, size), sub.Remaining()) else None
    ensures Tidy(writes, f, pData, Address(pSize, pData))
  {
    var pItem := Item(f, pData, size0);
    ghost var b := sub.Remaining();
    var v;
    ghost var wrote;
    status, v, wrote := DecScalar(sub, f);
    PackedNext(f, ArrayState(items0, size0), b, if status then Ok(v, sub.Remaining()) else Err);
    ghost var more := {Write(Region(pItem, wrote), Region(pItem, f.dataSize))};
    EntryTidy(writes0, more, f, pData, pSize, size0);
    items, size, writes := items0, size0, writes0 + more;
    if status {
      items, size, writes := Put(items, size, v), size + 1, writes + CountWrites(f, pSize);
    }
  }

  // The loop over a packed array.  Whether it succeeds or not, it writes nothing
  // outside the array and its count.
  method DecodePackedItems(sub: IStream, f: Field, pData: int, pSize: SizePointer, items0: seq<Value>, size0: nat)
    returns (status: bool, items: seq<Value>, size: nat, ghost writes: set<Write>)
    requires sub.Valid() && WellFormedField(f) && f.htype.REPEATED? && !f.ltype.SUBMESSAGE?
    requires pSize == Counter <==> FixedCount(f)
    modifies sub
    ensures sub.Valid() && sub.End() == old(sub.End())
    ensures DecodePacked(f, ArrayState(items0, size0), old(sub.Remaining()))
         == if status && sub.bytesLeft == 0 then Some(ArrayState(items, size)) else None
    ensures Tidy(writes, f, pData, Address(pSize, pData))
  {
    items, size, writes := items0, size0, {};
    ghost var spec := DecodePacked(f, ArrayState(items0, size0), sub.Remaining());
    status := true;
    while sub.bytesLeft > 0 && size < f.arraySize
      invariant sub.Valid() && sub.End() == old(sub.End())
      invariant spec == DecodePacked(f, ArrayState(items, size), sub.Remaining())
      invariant Tidy(writes, f, pData, Address(pSize, pData))
      decreases sub.bytesLeft
    {
      status, items, size, writes := DecodePackedItem(sub, f, pData, pSize, items, size, writes);
      if !status {
        return;
      }
    }
    PackedEnd(f, ArrayState(items, size), sub.Remaining());
  }

  // The packed array branch of decode_static_field.
  method DecodePackedArray(s: IStream, f: Field, pData: int, pSize: SizePointer, items0: seq<Value>, size0: nat)
    returns (ok: bool, items: seq<Value>, size: nat, ghost writes: set<Write>)
    requires s.Valid() && WellFormedField(f) && f.htype.REPEATED? && Packable(f.ltype)
    requires pSize == Counter <==> FixedCount(f)
    modifies s
    ensures s.Valid() && s.End() <= old(s.End()) && (ok ==> s.End() == old(s.End()))
    ensures
      var spec := DecodeEntry(f, ArrayState(items0, size0), WT_STRING, old(s.Remaining()));
      Gives(spec, ok, ArrayState(items, size), s.Remaining())
    ensures Tidy(writes, f, pData, Address(pSize, pData))
  {
    items, size, writes := items0, size0, {};
    var sub;
    ok, sub := s.MakeSubstream();
    if !ok {
      return;
    }
    ghost var end := sub.End();
    var status;
    status, items, size, writes := DecodePackedItems(sub, f, pData, pSize, items, size);
    if sub.bytesLeft != 0 {
      return false, items, size, writes;
    }
    ok := s.CloseSubstream(sub);
    ok := ok && status;
  }

  // The array branches of decode_static_field: `size` is the count in the struct,
  // or the counter that stands in for it.
  method DecodeArray(s: IStream, wireType: nat, f: Field, pData: int, pSize: SizePointer,
                     items0: seq<Value>, size0: nat)
    returns (ok: bool, items: seq<Value>, size: nat, ghost writes: set<Write>)
    requires s.Valid() && WellFormedField(f) && f.htype.REPEATED? && DecodingFits(f)
    requires pSize == Counter <==> FixedCount(f)
    modifies s
    ensures s.Valid() && s.End() <= old(s.End()) && (ok ==> s.End() == old(s.End()))
    ensures
      var spec := DecodeEntry(f, ArrayState(items0, size0), wireType, old(s.Remaining()));
      Gives(spec, ok, ArrayState(items, size), s.Remaining())
    ensures Tidy(writes, f, pData, Address(pSize, pData))
    decreases s.bytesLeft, 2
  {
    if wireType == WT_STRING && Packable(f.ltype) {
      ok, items, size, writes := DecodePackedArray(s, f, pData, pSize, items0, size0);
    } else {
      var pItem := Item(f, pData, size0);
      items, size, writes := items0, size0 + 1, CountWrites(f, pSize);
      CountTidy(f, pData, pSize);
      if size0 >= f.arraySize {
        return false, items, size, writes;
      }
      var v;
      ok, v, writes := Dec(s, f, ZeroValue(f), pItem);
      EntryTidy({}, writes, f, pData, pSize, size0);
      writes := {} + writes + CountWrites(f, pSize);
      items := Put(items0, size0, v);
    }
  }

  lemma CurrentUnused(f: Field, v: Value, w: Value, b: seq<byte>)
    requires f.ltype.SUBMESSAGE? ==> v == w
    ensures DecodeValue(f, v, b) == DecodeValue(f, w, b)
  {
  }

  // What a field that is not an array has written before its decoder is called: has_
  // or which_, and the defaults of a submessage in a union.
  ghost function HeadWrites(f: Field, pData: int, pSize: int): set<Write> {
    (if HasSize(f) then {Fill(SizeRegion(f, pSize))} else {})
    + (if f.htype.ONEOF? && f.ltype.SUBMESSAGE?
       then {Fill(Region(pData, f.dataSize))} + DefaultWrites(f.ltype.fields, |f.ltype.fields|, pData)
       else {})
  }

  lemma HeadTidy(f: Field, pData: int, pSize: int)
    requires WellFormedField(f) && !f.htype.REPEATED? && DecodingFits(f)
    ensures Tidy(HeadWrites(f, pData, pSize), f, pData, pSize)
  {
    if f.htype.ONEOF? && f.ltype.SUBMESSAGE? {
      var fields := f.ltype.fields;
      TidyDefaults(fields, pData);
      TidySubmessage(DefaultWrites(fields, |fields|, pData), f, pData);
      TidySingle(DefaultWrites(fields, |fields|, pData), f, pData, pSize);
    }
  }

  // The other branches of decode_static_field.
  method DecodeOne(s: IStream, f: Field, pData: int, pSize: int, slot0: Slot)
    returns (ok: bool, slot: Slot, ghost writes: set<Write>)
    requires s.Valid() && WellFormedField(f) && !f.htype.REPEATED? && DecodingFits(f)
    modifies s
    ensures s.Valid() && s.End() <= old(s.End()) && (ok ==> s.End() == old(s.End()))
    ensures Gives(DecodeSingle(f, slot0, old(s.Remaining())), ok, slot, s.Remaining())
    ensures Tidy(writes, f, pData, pSize)
    decreases s.bytesLeft, 2
  {
    slot, writes := slot0, {};
    var v;
    ghost var head := HeadWrites(f, pData, pSize);
    if f.htype.ONEOF? {
      var current := ZeroValue(f);
      if f.ltype.SUBMESSAGE? {
        var m;
        ghost var defaults;
        m, defaults := MessageSetToDefaults(f.ltype.fields, pData);
        current := VMsg(m);
        assert head == {Fill(SizeRegion(f, pSize))} + ({Fill(Region(pData, f.dataSize))} + defaults);
      }
      CurrentUnused(f, current, DefaultValue(f), s.Remaining());
      ok, v, writes := Dec(s, f, current, pData);
      slot := Union(f.tag, v);
    } else if f.htype.OPTIONAL? && f.sizeOffset != 0 {
      if !slot0.Opt? {
        return false, slot, {};
      }
      ok, v, writes := Dec(s, f, slot0.content, pData);
      slot := Opt(true, v);
    } else {
      if !slot0.Single? {
        return false, slot, {};
      }
      ok, v, writes := Dec(s, f, slot0.v, pData);
      slot := Single(v);
    }
    HeadTidy(f, pData, pSize);
    TidySingle(writes, f, pData, pSize);
    TidyBoth(head, writes, f, pData, pSize);
    writes := head + writes;
  }

  // decode_static_field on the struct and the counter.
  ghost function StaticField(f: Field, m: Struct, counter: nat, wireType: nat, b: seq<byte>): Parsed<(Struct, nat)> {
    if f.member !in m then Err
    else if f.htype.REPEATED? then
      if !m[f.member].Arr? then Err else
      var items := m[f.member].items;
      match DecodeEntry(f, ArrayState(items, if FixedCount(f) then counter else |items|), wireType, b)
      case Err => Err
      case Ok(a, rest) => Ok((m[f.member := Arr(a.items)], if FixedCount(f) then a.count else counter), rest)
    else
      match DecodeSingle(f, m[f.member], b)
      case Err => Err
      case Ok(slot, rest) => Ok((m[f.member := slot], counter), rest)
  }

  // Whether it succeeds or not, it writes nothing outside the members of its field.
  method DecodeStaticField(s: IStream, wireType: nat, iter: Iter, m0: Struct, counter0: nat)
    returns (ok: bool, m: Struct, counter: nat, ghost writes: set<Write>)
    requires s.Valid() && iter.Valid() && iter.start != [] && WellFormedField(iter.start[iter.pos])
    requires iter.pSize == Counter <==> FixedCount(iter.start[iter.pos])
    requires DecodingFits(iter.start[iter.pos])
    modifies s
    ensures s.Valid() && s.End() <= old(s.End()) && (ok ==> s.End() == old(s.End()))
    ensures
      var spec := StaticField(iter.start[iter.pos], m0, counter0, wireType, old(s.Remaining()));
      Gives(spec, ok, (m, counter), s.Remaining())
    ensures Tidy(writes, iter.start[iter.pos], iter.pData, Address(iter.pSize, iter.pData))
    decreases s.bytesLeft, 3
  {
    var f := iter.start[iter.pos];
    m, counter, writes := m0, counter0, {};
    if f.member !in m0 || (f.htype.REPEATED? && !m0[f.member].Arr?) {
      return false, m, counter, writes;
    }
    if f.htype.REPEATED? {
      var items := m0[f.member].items;
      var size := if iter.pSize == Counter then counter0 else |items|;
      ok, items, size, writes := DecodeArray(s, wireType, f, iter.pData, iter.pSize, items, size);
      m := m0[f.member := Arr(items)];
      if iter.pSize == Counter {
        counter := size;
      }
    } else {
      var slot;
      ok, slot, writes := DecodeOne(s, f, iter.pData, Address(iter.pSize, iter.pData), m0[f.member]);
      m := m0[f.member := slot];
    }
  }

  // ------------------------------------------------------------ whole messages

  // The tail of pb_decode_noinit: count the required fields by walking the cursor
  // to the end of the table, then look at the bitmap.
  method CheckRequired(iter: Iter, fieldsSeen: array<uint32>, ghost seen: set<nat>) returns (ok: bool)
    requires iter.Valid() && fieldsSeen.Length == 2 && Holds(fieldsSeen[..], Ranks(iter.start, seen))
    modifies iter
    ensures ok <==> RequiredSeen(iter.start, seen)
  {
    var d := iter.start;
    var reqFieldCount := iter.requiredFieldIndex;
    var lastRequired := d == [] || d[iter.pos].htype.REQUIRED?;
    var more := true;
    ghost var last: nat := iter.pos;
    while more
      invariant iter.Valid() && iter.start == d
      invariant if d == [] then last == 0 else last < |d|
      invariant reqFieldCount == RequiredBefore(d, last)
      invariant lastRequired <==> d == [] || d[last].htype.REQUIRED?
      invariant if more then iter.pos == last else iter.pos == 0 && last + 1 >= |d|
      decreases more, |d| - last
    {
      more := iter.Next();
      if more {
        last := iter.pos;
        reqFieldCount := iter.requiredFieldIndex;
        lastRequired := d[iter.pos].htype.REQUIRED?;
      }
    }
    if lastRequired && d != [] {
      reqFieldCount := reqFieldCount + 1;
    }
    if reqFieldCount > MAX_REQUIRED_FIELDS {
      reqFieldCount := MAX_REQUIRED_FIELDS;
    }
    RanksComplete(d, seen);
    ok := AllMarked(fieldsSeen, reqFieldCount, Ranks(d, seen));
  }

  lemma RanksExtended(d: seq<Field>, seen: set<nat>, i: nat)
    requires i < |d| && d[i].htype.REQUIRED?
    ensures Ranks(d, seen + {i}) ==
      if RequiredBefore(d, i) < MAX_REQUIRED_FIELDS then Ranks(d, seen) + {RequiredBefore(d, i)} else Ranks(d, seen)
  {
  }

  // The counter for fixed count arrays, and what it belongs to: `fixed_count_field`
  // and `fixed_count_size`.
  datatype FixedState = FixedState(field: Option<nat>, size: nat)

  // What the loop keeps between rounds, besides the stream and the struct.
  ghost predicate Cursors(iter: Iter, fieldsSeen: array<uint32>, fixed: FixedState, seen: set<nat>)
    reads iter, fieldsSeen
  {
    && iter.Valid()
    && fieldsSeen.Length == 2 && Holds(fieldsSeen[..], Ranks(iter.start, seen))
    && (iter.pSize == Counter ==> fixed.field == Some(iter.pos))
    && (fixed.field.Some? ==> fixed.field.value < |iter.start|)
  }

  ghost function State(m: Struct, fixed: FixedState, seen: set<nat>): LoopState {
    LoopState(m, seen, fixed.field, fixed.size)
  }

  // If a fixed count array was found, switch the counter over to it.
  method EnterArray(iter: Iter, fixed0: FixedState) returns (ok: bool, fixed: FixedState)
    requires iter.Valid() && iter.start != []
    requires iter.pSize == Counter ==> fixed0.field == Some(iter.pos)
    requires fixed0.field.Some? ==> fixed0.field.value < |iter.start|
    modifies iter`pSize
    ensures
      var i := iter.pos;
      var complete := fixed0.field.Some? ==> fixed0.size == iter.start[fixed0.field.value].arraySize;
      if !FixedCount(iter.start[i]) then ok && fixed == fixed0
      else if fixed0.field == Some(i) then ok && fixed == fixed0
      else if complete then ok && fixed == FixedState(Some(i), 0)
      else !ok
    ensures ok ==> iter.Valid() && (iter.pSize == Counter <==> FixedCount(iter.start[iter.pos]))
  {
    fixed := fixed0;
    if iter.start[iter.pos].htype.REPEATED? && iter.pSize == At(iter.pData) {
      if fixed.field != Some(iter.pos) {
        if fixed.field.Some? && fixed.size != iter.start[fixed.field.value].arraySize {
          return false, fixed;
        }
        fixed := FixedState(Some(iter.pos), 0);
      }
      iter.pSize := Counter;
    }
    ok := true;
  }

  // Record a required field in the bitmap.
  method MarkRequired(iter: Iter, fieldsSeen: array<uint32>, ghost seen0: set<nat>) returns (ghost seen: set<nat>)
    requires iter.Valid() && iter.start != []
    requires fieldsSeen.Length == 2 && Holds(fieldsSeen[..], Ranks(iter.start, seen0))
    modifies fieldsSeen
    ensures Holds(fieldsSeen[..], Ranks(iter.start, seen))
    ensures seen == if iter.start[iter.pos].htype.REQUIRED? then seen0 + {iter.pos} else seen0
  {
    seen := seen0;
    if iter.start[iter.pos].htype.REQUIRED? {
      if iter.requiredFieldIndex < MAX_REQUIRED_FIELDS {
        Mark(fieldsSeen, iter.requiredFieldIndex, Ranks(iter.start, seen0));
      }
      RanksExtended(iter.start, seen0, iter.pos);
      seen := seen0 + {iter.pos};
    }
  }

  // For an array of fixed count it does not matter where the count would be.
  lemma SizeUnused(writes: set<Write>, d: seq<Field>, dest: int, i: nat, pSize: int)
    requires i < |d| && Tidy(writes, d[i], dest + Offset(d, i), pSize)
    requires FixedCount(d[i]) || pSize == dest + Offset(d, i) + SizeOffset(d, i)
    ensures Tidy(writes, d[i], dest + Offset(d, i), dest + Offset(d, i) + SizeOffset(d, i))
  {
  }

  // A round of the loop, for a field that was found in the table.
  method DecodeFound(s: IStream, wireType: nat, iter: Iter, fieldsSeen: array<uint32>,
                     m0: Struct, fixed0: FixedState, ghost seen0: set<nat>)
    returns (ok: bool, m: Struct, fixed: FixedState, ghost seen: set<nat>, ghost writes: set<Write>)
    requires s.Valid() && iter.start != [] && Cursors(iter, fieldsSeen, fixed0, seen0)
    requires WellFormedField(iter.start[iter.pos]) && DecodingFits(iter.start[iter.pos])
    modifies s, iter`pSize, fieldsSeen
    ensures s.Valid() && s.End() <= old(s.End()) && (ok ==> s.End() == old(s.End()))
    ensures
      match DecodeField(iter.start, State(m0, fixed0, seen0), iter.pos, wireType, old(s.Remaining()))
      case Next(st, rest) => ok && st == State(m, fixed, seen) && s.Remaining() == rest
      case Halt(_) => false
      case Fail => !ok
    ensures ok ==> Cursors(iter, fieldsSeen, fixed, seen)
    ensures TidyStruct(writes, iter.start, iter.destStruct)
    decreases s.bytesLeft, 4
  {
    m, fixed, seen, writes := m0, fixed0, seen0, {};
    ok, fixed := EnterArray(iter, fixed0);
    if !ok {
      return;
    }
    seen := MarkRequired(iter, fieldsSeen, seen0);
    var counter;
    ok, m, counter, writes := DecodeStaticField(s, wireType, iter, m0, fixed.size);
    fixed := fixed.(size := counter);
    SizeUnused(writes, iter.start, iter.destStruct, iter.pos, Address(iter.pSize, iter.pData));
    TidyEntry(writes, iter.start, iter.destStruct, iter.pos);
  }

  // A record whose field is not in the table.  The terminator of an empty table
  // passes for a boolean field.
  method DecodeUnknown(s: IStream, d: seq<Field>, tag: nat, wireType: nat, dest: int)
    returns (ok: bool, ghost writes: set<Write>)
    requires s.Valid()
    modifies s
    ensures s.Valid() && s.End() == old(s.End())
    ensures
      var b := old(s.Remaining());
      if d == [] && tag == 0 then
        (ok <==> Varint.DecodeVarint32(b).Ok?) && (ok ==> s.Remaining() == Varint.DecodeVarint32(b).rest)
      else Gives(DecodeSpec.SkipField(wireType, b), ok, (), s.Remaining())
    ensures TidyStruct(writes, d, dest)
  {
    writes := {};
    if d == [] && tag == 0 {
      var ignored;
      ok, ignored := s.DecodeVarint32();
      if ok {
        writes := {Fill(Region(dest, 1))};
      }
    } else {
      ok := s.SkipField(wireType);
    }
  }

  // A round of the loop.
  method DecodeRound(s: IStream, iter: Iter, fieldsSeen: array<uint32>,
                     m0: Struct, fixed0: FixedState, ghost seen0: set<nat>)
    returns (ok: bool, eof: bool, m: Struct, fixed: FixedState, ghost seen: set<nat>, ghost writes: set<Write>)
    requires s.Valid() && s.bytesLeft > 0
    requires WellFormedTable(iter.start) && AllDecodingFits(iter.start) && Cursors(iter, fieldsSeen, fixed0, seen0)
    modifies s, iter, fieldsSeen
    ensures s.Valid() && s.End() <= old(s.End()) && (ok || eof ==> s.End() == old(s.End()))
    ensures
      match DecodeRecord(iter.start, State(m0, fixed0, seen0), old(s.Remaining()))
      case Next(st, rest) => ok && !eof && st == State(m, fixed, seen) && s.Remaining() == rest
      case Halt(rest) => !ok && eof && State(m, fixed, seen) == State(m0, fixed0, seen0) && s.Remaining() == rest
      case Fail => !ok && !eof
    ensures ok || eof ==> Cursors(iter, fieldsSeen, fixed, seen)
    ensures TidyStruct(writes, iter.start, iter.destStruct)
    decreases s.bytesLeft, 5
  {
    ghost var d := iter.start;
    m, fixed, seen, writes := m0, fixed0, seen0, {};
    var wireType, tag;
    ok, wireType, tag, eof := s.DecodeTag();
    if !ok {
      return;
    }
    var found := iter.Find(tag);
    if !found || iter.start == [] {
      ok, writes := DecodeUnknown(s, iter.start, tag, wireType, iter.destStruct);
    } else {
      FoundIndex(d, iter.pos, tag);
      ok, m, fixed, seen, writes := DecodeFound(s, wireType, iter, fieldsSeen, m0, fixed0, seen0);
    }
  }

  // The checks behind the loop.
  method CheckComplete(iter: Iter, fieldsSeen: array<uint32>, fixed: FixedState, ghost m: Struct, ghost seen: set<nat>)
    returns (ok: bool)
    requires Cursors(iter, fieldsSeen, fixed, seen)
    modifies iter
    ensures ok <==> FixedComplete(iter.start, State(m, fixed, seen)) && RequiredSeen(iter.start, seen)
  {
    if fixed.field.Some? && fixed.size != iter.start[fixed.field.value].arraySize {
      return false;
    }
    ok := CheckRequired(iter, fieldsSeen, seen);
  }

  // pb_decode_noinit, into the struct at `dest`.  Whatever the input, and whether it
  // succeeds or not, every write stays inside the member it is meant for, and these are
  // members of the struct.
  method DecodeInto(s: IStream, d: seq<Field>, m0: Struct, dest: int)
    returns (ok: bool, m: Struct, ghost writes: set<Write>)
    requires s.Valid() && WellFormedTable(d) && AllDecodingFits(d)
    modifies s
    ensures s.Valid() && s.End() <= old(s.End()) && (ok ==> s.End() == old(s.End()))
    ensures Gives(DecodeNoinit(d, m0, old(s.Remaining())), ok, m, s.Remaining())
    ensures TidyStruct(writes, d, dest)
    decreases s.bytesLeft, 6
  {
    var fieldsSeen := new uint32[2](_ => 0);
    NoRanks(fieldsSeen[..], d);
    var fixed := FixedState(None, 0);
    var iter := new Iter(d, dest);
    m, writes := m0, {};
    ghost var seen: set<nat> := {};
    ghost var spec := DecodeLoop(d, Start(m0), old(s.Remaining()));
    var eof := false;
    while s.bytesLeft > 0
      invariant s.Valid() && s.End() == old(s.End()) && s.bytesLeft <= old(s.bytesLeft)
      invariant iter.start == d && iter.destStruct == dest && fresh(iter) && fresh(fieldsSeen)
      invariant Cursors(iter, fieldsSeen, fixed, seen)
      invariant TidyStruct(writes, d, dest)
      invariant spec == DecodeLoop(d, State(m, fixed, seen), s.Remaining())
      decreases s.bytesLeft
    {
      ghost var more;
      ok, eof, m, fixed, seen, more := DecodeRound(s, iter, fieldsSeen, m, fixed, seen);
      TidyStructBoth(writes, more, d, dest);
      writes := writes + more;
      if eof {
        break;
      }
      if !ok {
        return;
      }
    }
    assert spec == if eof then Stopped(State(m, fixed, seen), s.Remaining()) else Done(State(m, fixed, seen));
    ok := CheckComplete(iter, fieldsSeen, fixed, m, seen);
  }

  // pb_decode.  Setting the struct to its defaults stays inside its members, and leaves
  // them as described, exactly if the arrays of fixed count are as large as a count.
  method DecodeNew(s: IStream, d: seq<Field>, dest: int) returns (ok: bool, m: Struct, ghost writes: set<Write>)
    requires s.Valid() && WellFormedTable(d) && AllDecodingFits(d)
    modifies s
    ensures s.Valid() && s.End() <= old(s.End()) && (ok ==> s.End() == old(s.End()))
    ensures DefaultsFit(d) ==> Gives(DecodeSpec.Decode(d, old(s.Remaining())), ok, m, s.Remaining())
    ensures Contained(writes) <==> DefaultsFit(d)
    ensures AllRoomy(d) ==> InStruct(writes, d, dest)
  {
    m, writes := MessageSetToDefaults(d, dest);
    DefaultsStay(d, |d|, dest);
    ghost var more;
    ok, m, more := DecodeInto(s, d, m, dest);
    if AllRoomy(d) {
      DefaultsIn(d, |d|, dest);
      BothIn(writes, more, d, dest);
    }
    writes := writes + more;
  }

  lemma FoundIndex(d: seq<Field>, i: nat, tag: nat)
    requires WellFormedTable(d) && i < |d| && d[i].tag == tag
    ensures FindTag(d, tag) == Some(i) && WellFormedField(d[i])
  {
    FindTagUnique(d, i);
  }

  lemma NoRanks(words: seq<uint32>, d: seq<Field>)
    requires |words| == 2 && words[0] == 0 && words[1] == 0
    ensures Holds(words, Ranks(d, {}))
  {
    forall j | 0 <= j < 32
      ensures !Bit(0, j)
    {
      NoBit(j);
    }
  }
}
