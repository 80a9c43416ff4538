// A table on which default setting leaves its member: an array of fixed count that is
// smaller than the count that is cleared in its place.
module ShortArray {
  import opened Wrappers
  import opened Bits
  import opened Varint
  import opened Integers
  import opened Descriptor
  import opened DecodeSpec
  import opened WellFormed
  import opened FieldIter
  import opened Writes
  import opened Merge

  // The table is in order otherwise, but unless counts are single bytes, the count
  // cleared leaves the array.
  lemma OneFlagOverflows(dest: int)
    ensures WellFormedTable([OneFlag()]) && LaidOut([OneFlag()], [0]) && AllRoomy([OneFlag()])
    ensures Contained(DefaultWrites([OneFlag()], 1, dest)) <==> PB_SIZE_MAX == 0xFF
  {
    DefaultsStay([OneFlag()], 1, dest);
    assert forall i :: 0 <= i < 1 ==> [OneFlag()][i] == OneFlag();
    assert DefaultFits(OneFlag()) <==> COUNT_SIZE <= 1;
  }

  // Messages with such an array, and a number behind them.
  function Flags(): Field {
    Field(1, SUBMESSAGE([OneFlag()]), REPEATED, STATIC, "flags", 4, -4, 1, 1, None)
  }

  function Number(): Field {
    Field(2, UVARINT, REQUIRED, STATIC, "number", 0, 0, 1, 0, None)
  }

  lemma TableInOrder()
    ensures WellFormedTable([Flags(), Number()])
    ensures LaidOut([Flags(), Number()], [4, 5])
  {
    var d := [Flags(), Number()];
    OneFlagOverflows(0);
    assert WellFormedField(d[0]) && WellFormedField(d[1]);
    assert !SameUnion(d[0], d[1]) && MemberSize(d[0]) == 1;
  }

  lemma TableRoomy()
    ensures AllRoomy([Flags(), Number()])
  {
    var t := [OneFlag()];
    OneFlagOverflows(0);
    assert Extent(t, 0) == 1 && Offset(t, 0) == 0;
    assert Extent(t, 1) == 1;
    assert Roomy(Flags());
  }

  // What initialising an entry of the array at `dest` clears.
  lemma CountCleared(dest: int)
    ensures Write(Region(dest, COUNT_SIZE), DataRegion(OneFlag(), dest)) in DefaultWrites([OneFlag()], 1, dest)
  {
    var t := [OneFlag()];
    assert Offset(t, 0) == 0 && SizeOffset(t, 0) == 0;
    assert DefaultWrites(t, 0, dest) == {};
    assert EntryDefaultWrites(t, 0, dest) == FieldDefaultWrites(OneFlag(), dest, dest);
  }

  // Initialising the entry overwrites the number, whatever was decoded before.
  lemma NumberOverwritten(dest: int)
    requires PB_SIZE_MAX != 0xFF
    ensures WellFormedTable([Flags(), Number()])
    ensures LaidOut([Flags(), Number()], [4, 5]) && AllRoomy([Flags(), Number()])
    ensures exists w :: w in DefaultWrites([OneFlag()], 1, dest + 4) && DataRegion(Number(), dest + 5).Inside(w.bytes)
  {
    TableInOrder();
    TableRoomy();
    CountCleared(dest + 4);
  }

  lemma NumberReceived(st: LoopState, rest: seq<byte>)
    requires "number" in st.m && st.m["number"].Single?
    ensures DecodeRecord([Flags(), Number()], st, [16, 5] + rest)
         == Next(st.(m := st.m["number" := Single(VInt(5))], seen := st.seen + {1}), rest)
  {
    var d, b := [Flags(), Number()], [16, 5] + rest;
    assert b[1..] == [5] + rest && b[1..][1..] == rest;
    assert DecodeVarint32(b) == Ok(16, b[1..]);
    assert DecodeTag(b) == Tag(2, 0, b[1..]);
    assert FindTag(d, 2) == Some(1);
    assert DecodeVarint64(b[1..]) == Ok(5, rest);
    assert NarrowUnsigned(5, 1) == Some(5);
    assert DecodeScalar(d[1], b[1..]) == Ok(VInt(5), rest);
    assert DecodeValue(d[1], st.m["number"].v, b[1..]) == Ok(VInt(5), rest);
    assert DecodeSingle(d[1], st.m["number"], b[1..]) == Ok(Single(VInt(5)), rest);
  }

  lemma InnerFlagReceived() returns (m: Struct)
    ensures DecodeNoinit([OneFlag()], Defaults([OneFlag()]), FlagSet(1)) == Ok(m, [])
  {
    var t := [OneFlag()];
    OneFlagOverflows(0);
    DefaultsAt(t, 0);
    assert FlagSet(1) + [] == FlagSet(1);
    FlagReceived(Start(Defaults(t)), 1, []);
    m := DecodeRecord(t, Start(Defaults(t)), FlagSet(1)).st.m;
  }

  lemma FlagsParsed()
    ensures DecodeTag([10, 2, 8, 1]) == Tag(1, 2, [2, 8, 1])
    ensures ReadDelimited([2, 8, 1]) == Ok(FlagSet(1), [])
  {
    var b: seq<byte>, c: seq<byte> := [10, 2, 8, 1], [2, 8, 1];
    assert b[1..] == c && c[1..] == FlagSet(1) && FlagSet(1)[..2] == FlagSet(1) && FlagSet(1)[2..] == [];
    assert DecodeVarint32(b) == Ok(10, c);
    assert DecodeVarint32(c) == Ok(2, FlagSet(1));
  }

  lemma FlagsReceived(st: LoopState) returns (v: Value)
    requires "flags" in st.m && st.m["flags"] == Arr([])
    ensures DecodeRecord([Flags(), Number()], st, [10, 2, 8, 1]) == Next(st.(m := st.m["flags" := Arr([v])]), [])
  {
    var d, c: seq<byte> := [Flags(), Number()], [2, 8, 1];
    FlagsParsed();
    var m := InnerFlagReceived();
    v := VMsg(m);
    assert FindTag(d, 1) == Some(0);
    assert DecodeValue(d[0], ZeroValue(d[0]), c) == Ok(v, []);
    assert Put([], 0, v) == [v];
    assert DecodeEntry(d[0], ArrayState([], 0), 2, c) == Ok(ArrayState([v], 1), []);
    assert DecodeField(d, st, 0, 2, c) == Next(st.(m := st.m["flags" := Arr([v])]), []);
  }

  // The functions that specify decoding know nothing of that: they are what the code
  // does only for tables on which default setting stays inside the members.
  lemma NumberSpecified(m: Struct)
    requires "number" in m && m["number"].Single? && "flags" in m && m["flags"] == Arr([])
    ensures
      var r := DecodeNoinit([Flags(), Number()], m, [16, 5, 10, 2, 8, 1]);
      r.Ok? && "number" in r.value && r.value["number"] == Single(VInt(5))
  {
    var d := [Flags(), Number()];
    assert [16, 5] + [10, 2, 8, 1] == [16, 5, 10, 2, 8, 1];
    NumberReceived(Start(m), [10, 2, 8, 1]);
    var v := FlagsReceived(DecodeRecord(d, Start(m), [16, 5, 10, 2, 8, 1]).st);
  }
}
