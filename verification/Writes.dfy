// Where the decoder writes.  Every write is recorded with the member it is meant for.
module Writes {
  import opened Descriptor
  import opened WellFormed
  import opened FieldIter

  datatype Region = Region(start: int, size: nat) {
    predicate Inside(outer: Region) {
      outer.start <= start && start + size <= outer.start + outer.size
    }
  }

  datatype Write = Write(bytes: Region, member: Region)

  // Every write stays inside the member it is meant for.
  ghost predicate Contained(writes: set<Write>) {
    forall w :: w in writes ==> w.bytes.Inside(w.member)
  }

  // The members written to are all in the region.
  ghost predicate Within(writes: set<Write>, region: Region) {
    forall w :: w in writes ==> w.member.Inside(region)
  }

  // A write that fills its member.
  function Fill(member: Region): Write {
    Write(member, member)
  }

  // ------------------------------------------------------------------ members

  // The field has a has_, count or which_ member in the struct.
  predicate HasSize(f: Field) {
    HasFlag(f) || Counted(f) || f.htype.ONEOF?
  }

  // sizeof(bool) for has_, sizeof(pb_size_t) for the others
  function SizeWidth(f: Field): nat {
    if f.htype.OPTIONAL? then 1 else COUNT_SIZE
  }

  function DataRegion(f: Field, pData: int): Region {
    Region(pData, MemberSize(f))
  }

  function SizeRegion(f: Field, pSize: int): Region {
    Region(pSize, SizeWidth(f))
  }

  // Where pSize points, unless it is at the decoder's counter.
  function Address(pSize: SizePointer, pData: int): int {
    if pSize.At? then pSize.address else pData
  }

  // The address of the c-th entry of an array.
  function Item(f: Field, pData: int, c: nat): int {
    pData + f.dataSize * c
  }

  // The region belongs to a field whose data is at pData and whose has_, count or
  // which_ member, if it has one, is at pSize.
  predicate OfField(region: Region, f: Field, pData: int, pSize: int) {
    region.Inside(DataRegion(f, pData)) || (HasSize(f) && region.Inside(SizeRegion(f, pSize)))
  }

  ghost predicate ForField(writes: set<Write>, f: Field, pData: int, pSize: int) {
    forall w :: w in writes ==> OfField(w.member, f, pData, pSize)
  }

  // The same for the i-th field of the struct at `dest`.
  ghost predicate OfEntry(region: Region, d: seq<Field>, dest: int, i: nat)
    requires i < |d|
  {
    OfField(region, d[i], dest + Offset(d, i), dest + Offset(d, i) + SizeOffset(d, i))
  }

  // The members written to belong to fields of the struct at `dest`, or to the byte
  // that a struct without fields has.
  ghost predicate InStruct(writes: set<Write>, d: seq<Field>, dest: int) {
    if d == [] then Within(writes, Region(dest, 1))
    else forall w :: w in writes ==> exists i :: 0 <= i < |d| && OfEntry(w.member, d, dest, i)
  }

  // ------------------------------------------------------------------ structs

  function Max(a: int, b: int): int {
    if a > b then a else b
  }

  // The bytes a struct needs for its first n fields.
  ghost function Extent(d: seq<Field>, n: nat): nat
    requires n <= |d|
  {
    if n == 0 then 1
    else
      var f, offset := d[n - 1], Offset(d, n - 1);
      var end := Max(Extent(d, n - 1), offset + MemberSize(f));
      if HasSize(f) then Max(end, offset + SizeOffset(d, n - 1) + SizeWidth(f)) else end
  }

  // No member starts before the struct does.
  ghost predicate Placed(d: seq<Field>) {
    forall i :: 0 <= i < |d| && HasSize(d[i]) ==> 0 <= Offset(d, i) + SizeOffset(d, i)
  }

  // A submessage member has room for the struct of its table, at every depth.
  ghost predicate Roomy(f: Field)
    decreases f, 0
  {
    match f.ltype
    case SUBMESSAGE(fields) => Placed(fields) && Extent(fields, |fields|) <= f.dataSize && AllRoomy(fields)
    case _ => true
  }

  ghost predicate AllRoomy(d: seq<Field>)
    decreases d
  {
    forall i :: 0 <= i < |d| ==> Roomy(d[i])
  }

  lemma {:induction false} EntryInExtent(d: seq<Field>, n: nat, i: nat)
    requires i < n <= |d|
    ensures Offset(d, i) + MemberSize(d[i]) <= Extent(d, n)
    ensures HasSize(d[i]) ==> Offset(d, i) + SizeOffset(d, i) + SizeWidth(d[i]) <= Extent(d, n)
  {
    if i < n - 1 {
      EntryInExtent(d, n - 1, i);
    }
  }

  lemma {:induction false} ExtentPositive(d: seq<Field>, n: nat)
    requires n <= |d|
    ensures Extent(d, n) >= 1
  {
    if n > 0 {
      ExtentPositive(d, n - 1);
    }
  }

  // What is written to a struct stays within the bytes it needs.
  lemma StructWithin(writes: set<Write>, d: seq<Field>, dest: int)
    requires InStruct(writes, d, dest) && Placed(d)
    ensures Within(writes, Region(dest, Extent(d, |d|)))
  {
    ExtentPositive(d, |d|);
    if d != [] {
      forall w | w in writes
        ensures w.member.Inside(Region(dest, Extent(d, |d|)))
      {
        var i :| 0 <= i < |d| && OfEntry(w.member, d, dest, i);
        EntryInExtent(d, |d|, i);
      }
    }
  }

  lemma WithinLarger(writes: set<Write>, inner: Region, outer: Region)
    requires Within(writes, inner) && inner.Inside(outer)
    ensures Within(writes, outer)
  {
  }

  // An entry below the array size lies inside the array.
  lemma ItemInside(f: Field, pData: int, c: nat)
    requires f.atype.STATIC? && f.htype.REPEATED? && c < f.arraySize
    ensures Region(Item(f, pData, c), f.dataSize).Inside(DataRegion(f, pData))
  {
    ItemBound(f.dataSize, 0, c);
    ItemBound(f.dataSize, c + 1, f.arraySize);
  }

  // A write inside the data of one field touches that of no other, except in one union.
  // The offsets are those the iterator arrives at (OffsetsRecovered).
  lemma OthersUntouched(bytes: Region, d: seq<Field>, offsets: seq<nat>, dest: int, i: nat, j: nat)
    requires LaidOut(d, offsets) && i < |d| && j < |d|
    requires bytes.Inside(DataRegion(d[i], dest + offsets[i]))
    ensures i < j && !InUnion(d, i, j) ==> bytes.start + bytes.size <= dest + offsets[j]
    ensures j < i && !InUnion(d, j, i) ==> dest + offsets[j] + MemberSize(d[j]) <= bytes.start
  {
    if i < j && !InUnion(d, i, j) {
      MembersDisjoint(d, offsets, i, j);
    }
    if j < i && !InUnion(d, j, i) {
      MembersDisjoint(d, offsets, j, i);
    }
  }

  // ---------------------------------------------------------- default setting

  // What pb_field_set_to_default writes.  A count is cleared through pSize, which for
  // an array of fixed count is the array itself.
  ghost function FieldDefaultWrites(f: Field, pData: int, pSize: int): set<Write>
    decreases f, 0
  {
    match f.htype
    case REPEATED =>
      {Write(Region(pSize, COUNT_SIZE), if FixedCount(f) then DataRegion(f, pData) else SizeRegion(f, pSize))}
    case ONEOF => {Fill(SizeRegion(f, pSize))}
    case _ =>
      (if HasFlag(f) then {Fill(SizeRegion(f, pSize))} else {})
      + match f.ltype
        case SUBMESSAGE(fields) => DefaultWrites(fields, |fields|, pData)
        case _ => {Fill(Region(pData, f.dataSize))}
  }

  // What pb_message_set_to_defaults writes for the first n fields.
  ghost function DefaultWrites(d: seq<Field>, n: nat, dest: int): set<Write>
    requires n <= |d|
    decreases d, 1, n
  {
    if n == 0 then {}
    else DefaultWrites(d, n - 1, dest) + EntryDefaultWrites(d, n - 1, dest)
  }

  ghost function EntryDefaultWrites(d: seq<Field>, i: nat, dest: int): set<Write>
    requires i < |d|
    decreases d, 0
  {
    var pData := dest + Offset(d, i);
    FieldDefaultWrites(d[i], pData, pData + SizeOffset(d, i))
  }

  // An array without a count in the struct is as large as the count that is cleared.
  predicate CountFits(f: Field) {
    FixedCount(f) ==> COUNT_SIZE <= MemberSize(f)
  }

  // The same for all arrays that default setting reaches: not for those inside arrays
  // and unions, which it leaves alone.
  ghost predicate DefaultFits(f: Field)
    decreases f, 0
  {
    CountFits(f) && (f.ltype.SUBMESSAGE? && (f.htype.REQUIRED? || f.htype.OPTIONAL?) ==> DefaultsFit(f.ltype.fields))
  }

  ghost predicate DefaultsFit(d: seq<Field>)
    decreases d
  {
    forall i :: 0 <= i < |d| ==> DefaultFits(d[i])
  }

  // And for those that decoding into an initialised struct reaches.
  ghost predicate DecodingFits(f: Field)
    decreases f, 0
  {
    f.ltype.SUBMESSAGE? ==>
      && (f.htype.REPEATED? || f.htype.ONEOF? ==> DefaultsFit(f.ltype.fields))
      && AllDecodingFits(f.ltype.fields)
  }

  ghost predicate AllDecodingFits(d: seq<Field>)
    decreases d
  {
    forall i :: 0 <= i < |d| ==> DecodingFits(d[i])
  }

  // All arrays, at every depth.
  ghost predicate CountsFit(d: seq<Field>)
    decreases d
  {
    forall i :: 0 <= i < |d| ==> CountFits(d[i]) && (d[i].ltype.SUBMESSAGE? ==> CountsFit(d[i].ltype.fields))
  }

  lemma {:induction false} FieldFitsTogether(f: Field)
    ensures CountFits(f) && (f.ltype.SUBMESSAGE? ==> CountsFit(f.ltype.fields)) <==> DefaultFits(f) && DecodingFits(f)
    decreases f, 0
  {
    if f.ltype.SUBMESSAGE? {
      FitsTogether(f.ltype.fields);
      assert f.htype.REQUIRED? || f.htype.OPTIONAL? || f.htype.REPEATED? || f.htype.ONEOF?;
    }
  }

  // Default setting and decoding together reach all of them.
  lemma {:induction false} FitsTogether(d: seq<Field>)
    ensures CountsFit(d) <==> DefaultsFit(d) && AllDecodingFits(d)
    decreases d
  {
    forall i | 0 <= i < |d|
      ensures CountFits(d[i]) && (d[i].ltype.SUBMESSAGE? ==> CountsFit(d[i].ltype.fields))
         <==> DefaultFits(d[i]) && DecodingFits(d[i])
    {
      FieldFitsTogether(d[i]);
    }
  }

  // SizeOffset of an array is its own.
  lemma ArrayOffset(d: seq<Field>, i: nat)
    requires i < |d| && d[i].htype.REPEATED?
    ensures SizeOffset(d, i) == d[i].sizeOffset
  {
  }

  lemma {:induction false} FieldDefaultsStay(f: Field, pData: int, pSize: int)
    requires FixedCount(f) ==> pSize == pData
    ensures Contained(FieldDefaultWrites(f, pData, pSize)) <==> DefaultFits(f)
    decreases f, 0
  {
    if f.htype.REPEATED? {
      assert Write(Region(pSize, COUNT_SIZE), if FixedCount(f) then DataRegion(f, pData) else SizeRegion(f, pSize))
        in FieldDefaultWrites(f, pData, pSize);
    } else if f.ltype.SUBMESSAGE? && !f.htype.ONEOF? {
      var fields := f.ltype.fields;
      DefaultsStay(fields, |fields|, pData);
      assert DefaultWrites(fields, |fields|, pData) <= FieldDefaultWrites(f, pData, pSize);
    }
  }

  // Setting a struct to its defaults stays inside the members, exactly if the arrays of
  // fixed count that it reaches are as large as a count.
  lemma {:induction false} DefaultsStay(d: seq<Field>, n: nat, dest: int)
    requires n <= |d|
    ensures Contained(DefaultWrites(d, n, dest)) <==> forall i :: 0 <= i < n ==> DefaultFits(d[i])
    decreases d, n
  {
    if n > 0 {
      var pData := dest + Offset(d, n - 1);
      if d[n - 1].htype.REPEATED? {
        ArrayOffset(d, n - 1);
      }
      DefaultsStay(d, n - 1, dest);
      FieldDefaultsStay(d[n - 1], pData, pData + SizeOffset(d, n - 1));
    }
  }

  lemma {:induction false} FieldDefaultsFor(f: Field, pData: int, pSize: int)
    requires WellFormedField(f) && Roomy(f)
    ensures ForField(FieldDefaultWrites(f, pData, pSize), f, pData, pSize)
    decreases f, 0
  {
    if f.ltype.SUBMESSAGE? && !f.htype.REPEATED? && !f.htype.ONEOF? {
      var fields := f.ltype.fields;
      var writes := DefaultWrites(fields, |fields|, pData);
      DefaultsIn(fields, |fields|, pData);
      StructWithin(writes, fields, pData);
    }
  }

  lemma {:induction false} DefaultsIn(d: seq<Field>, n: nat, dest: int)
    requires n <= |d| && WellFormedTable(d) && AllRoomy(d)
    ensures InStruct(DefaultWrites(d, n, dest), d, dest)
    decreases d, 1, n
  {
    if n > 0 {
      DefaultsIn(d, n - 1, dest);
      EntryDefaultsIn(d, n - 1, dest);
      BothIn(DefaultWrites(d, n - 1, dest), EntryDefaultWrites(d, n - 1, dest), d, dest);
    }
  }

  lemma {:induction false} EntryDefaultsIn(d: seq<Field>, i: nat, dest: int)
    requires i < |d| && WellFormedTable(d) && AllRoomy(d)
    ensures InStruct(EntryDefaultWrites(d, i, dest), d, dest)
    decreases d, 0
  {
    var pData := dest + Offset(d, i);
    var pSize := pData + SizeOffset(d, i);
    FieldDefaultsFor(d[i], pData, pSize);
    EntryIn(FieldDefaultWrites(d[i], pData, pSize), d, dest, i);
  }

  lemma BothIn(a: set<Write>, b: set<Write>, d: seq<Field>, dest: int)
    requires InStruct(a, d, dest) && InStruct(b, d, dest)
    ensures InStruct(a + b, d, dest)
  {
  }

  lemma EntryIn(writes: set<Write>, d: seq<Field>, dest: int, i: nat)
    requires i < |d| && ForField(writes, d[i], dest + Offset(d, i), dest + Offset(d, i) + SizeOffset(d, i))
    ensures InStruct(writes, d, dest)
  {
    forall w | w in writes
      ensures OfEntry(w.member, d, dest, i)
    {
    }
  }

  // ----------------------------------------------------------------- decoding

  // What decoding a field, successful or not, does to memory.
  ghost predicate Tidy(writes: set<Write>, f: Field, pData: int, pSize: int) {
    Contained(writes) && (Roomy(f) ==> ForField(writes, f, pData, pSize))
  }

  // The same for a struct.
  ghost predicate TidyStruct(writes: set<Write>, d: seq<Field>, dest: int) {
    Contained(writes) && (AllRoomy(d) ==> InStruct(writes, d, dest))
  }

  // The same for one entry of an array, or the data of another field.
  ghost predicate TidyItem(writes: set<Write>, f: Field, dest: int) {
    Contained(writes) && (Roomy(f) ==> Within(writes, Region(dest, f.dataSize)))
  }

  lemma TidyBoth(a: set<Write>, b: set<Write>, f: Field, pData: int, pSize: int)
    requires Tidy(a, f, pData, pSize) && Tidy(b, f, pData, pSize)
    ensures Tidy(a + b, f, pData, pSize)
  {
  }

  lemma TidyStructBoth(a: set<Write>, b: set<Write>, d: seq<Field>, dest: int)
    requires TidyStruct(a, d, dest) && TidyStruct(b, d, dest)
    ensures TidyStruct(a + b, d, dest)
  {
  }

  lemma TidySize(f: Field, pData: int, pSize: int)
    requires HasSize(f)
    ensures Tidy({Fill(SizeRegion(f, pSize))}, f, pData, pSize)
  {
  }

  lemma TidyArray(writes: set<Write>, f: Field, pData: int, pSize: int, c: nat)
    requires f.atype.STATIC? && f.htype.REPEATED? && c < f.arraySize && TidyItem(writes, f, Item(f, pData, c))
    ensures Tidy(writes, f, pData, pSize)
  {
    ItemInside(f, pData, c);
  }

  lemma TidySingle(writes: set<Write>, f: Field, pData: int, pSize: int)
    requires !f.htype.REPEATED? && f.atype.STATIC? && TidyItem(writes, f, pData)
    ensures Tidy(writes, f, pData, pSize)
  {
  }

  lemma TidySubmessage(writes: set<Write>, f: Field, dest: int)
    requires f.ltype.SUBMESSAGE? && TidyStruct(writes, f.ltype.fields, dest)
    ensures TidyItem(writes, f, dest)
  {
    if Roomy(f) {
      StructWithin(writes, f.ltype.fields, dest);
    }
  }

  lemma TidyEntry(writes: set<Write>, d: seq<Field>, dest: int, i: nat)
    requires i < |d| && Tidy(writes, d[i], dest + Offset(d, i), dest + Offset(d, i) + SizeOffset(d, i))
    ensures TidyStruct(writes, d, dest)
  {
    if AllRoomy(d) {
      EntryIn(writes, d, dest, i);
    }
  }

  lemma TidyDefaults(d: seq<Field>, dest: int)
    requires WellFormedTable(d) && DefaultsFit(d)
    ensures TidyStruct(DefaultWrites(d, |d|, dest), d, dest)
  {
    DefaultsStay(d, |d|, dest);
    if AllRoomy(d) {
      DefaultsIn(d, |d|, dest);
    }
  }
}
