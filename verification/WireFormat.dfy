// A reader of the Protocol Buffers wire format that knows no tables, and what it reads in
// the encoder's output.  It takes nothing from the codec but the bytes.
module WireFormat {
  import opened Wrappers
  import opened Bits
  import opened Varint
  import opened Descriptor
  import opened EncodeSpec
  import opened DecodeSpec
  import opened WellFormed
  import opened Integers
  import opened Records
  import opened VarintAgreement
  import opened WireNumbers

  datatype Payload =
    | Number(n: nat)
    | Eight(value: nat)
    | Bytes(data: seq<byte>)
    | Four(value: nat)

  datatype Record = Record(number: nat, payload: Payload)

  function FourBytes(b: seq<byte>): nat
    requires |b| >= 4
  {
    (b[0] as int) + 0x100 * (b[1] as int) + 0x1_0000 * (b[2] as int) + 0x100_0000 * (b[3] as int)
  }

  function EightBytes(b: seq<byte>): nat
    requires |b| >= 8
  {
    FourBytes(b) + 0x1_0000_0000 * FourBytes(b[4..])
  }

  function ReadPayload(wireType: nat, b: seq<byte>): (r: Option<(Payload, seq<byte>)>)
    ensures r.Some? ==> |r.value.1| < |b|
  {
    match wireType
    case 0 =>
      (match ReadNumber(b)
       case None => None
       case Some((n, rest)) => Some((Number(n), rest)))
    case 1 => if |b| < 8 then None else Some((Eight(EightBytes(b)), b[8..]))
    case 2 =>
      (match ReadNumber(b)
       case None => None
       case Some((n, rest)) => if |rest| < n then None else Some((Bytes(rest[..n]), rest[n..])))
    case 5 => if |b| < 4 then None else Some((Four(FourBytes(b)), b[4..]))
    case _ => None
  }

  // A key is eight times the field number plus the wire type.
  function ReadKeyed(key: nat, b: seq<byte>): (r: Option<(Record, seq<byte>)>)
    ensures r.Some? ==> |r.value.1| < |b|
  {
    match ReadPayload(key % 8, b)
    case None => None
    case Some((payload, rest)) => Some((Record(key / 8, payload), rest))
  }

  function ReadRecord(b: seq<byte>): (r: Option<(Record, seq<byte>)>)
    ensures r.Some? ==> |r.value.1| < |b|
  {
    match ReadNumber(b)
    case None => None
    case Some((key, rest)) => ReadKeyed(key, rest)
  }

  function Split(b: seq<byte>): Option<seq<Record>>
    decreases |b|
  {
    if b == [] then Some([]) else
    match ReadRecord(b)
    case None => None
    case Some((record, rest)) => Prepend(record, Split(rest))
  }

  function Prepend(record: Record, records: Option<seq<Record>>): Option<seq<Record>> {
    if records.None? then None else Some([record] + records.value)
  }

  // The payloads of a packed array.
  function SplitPacked(wireType: nat, b: seq<byte>): Option<seq<Payload>>
    decreases |b|
  {
    if b == [] then Some([]) else
    match ReadPayload(wireType, b)
    case None => None
    case Some((payload, rest)) =>
      var others := SplitPacked(wireType, rest);
      if others.None? then None else Some([payload] + others.value)
  }

  // ---------------------------------------------------- what should be in there

  function TypeOf(t: LType): nat {
    match t
    case BOOL | VARINT | UVARINT | SVARINT => 0
    case FIXED64 => 1
    case FIXED32 => 5
    case BYTES | STRING | FIXED_LENGTH_BYTES | SUBMESSAGE(_) => 2
  }

  // The payload of a value that is not a submessage.
  function ScalarPayload(f: Field, v: Value): Payload
    requires SafeScalar(f, v)
  {
    match f.ltype
    case BOOL => Number(if v.b then 1 else 0)
    case VARINT => Number(if v.i >= 0 then v.i else v.i + 0x1_0000_0000_0000_0000)
    case UVARINT => Number(v.i)
    case SVARINT => Number(if v.i >= 0 then 2 * v.i else -2 * v.i - 1)
    case FIXED32 => Four(v.i)
    case FIXED64 => Eight(v.i)
    case BYTES | STRING | FIXED_LENGTH_BYTES => Bytes(v.data)
  }

  // ------------------------------------------------------------- single values

  lemma DigitSum(v: nat)
    ensures v % 0x100 + 0x100 * (v / 0x100 % 0x100) + 0x1_0000 * (v / 0x1_0000 % 0x100)
            + 0x100_0000 * (v / 0x100_0000 % 0x100)
         == v % 0x1_0000_0000
  {
    var v1, v2, v3 := v / 0x100, v / 0x100 / 0x100, v / 0x100 / 0x100 / 0x100;
    assert v2 == v / 0x1_0000 && v3 == v / 0x100_0000 && v3 / 0x100 == v / 0x1_0000_0000;
  }

  lemma WordSum(v: nat, rest: seq<byte>)
    ensures FourBytes(WordBytes(v) + rest) == v % 0x1_0000_0000
  {
    DigitSum(v);
    var b := WordBytes(v) + rest;
    assert b[0] == WordBytes(v)[0] && b[1] == WordBytes(v)[1] && b[2] == WordBytes(v)[2] && b[3] == WordBytes(v)[3];
  }

  lemma FourOf(v: nat, rest: seq<byte>)
    requires v < 0x1_0000_0000
    ensures FourBytes(LittleEndian(v, 4) + rest) == v
  {
    FourDigits(v, 4);
    WordSum(v, rest);
    assert LittleEndian(v, 4) == WordBytes(v);
  }

  lemma EightOf(v: nat, rest: seq<byte>)
    requires v < 0x1_0000_0000_0000_0000
    ensures EightBytes(LittleEndian(v, 8) + rest) == v
  {
    var high := v / 0x1_0000_0000;
    FourDigits(v, 8);
    var b := LittleEndian(v, 8) + rest;
    assert b == WordBytes(v) + (LittleEndian(high, 4) + rest);
    assert b[4..] == LittleEndian(high, 4) + rest;
    WordSum(v, LittleEndian(high, 4) + rest);
    FourOf(high, rest);
  }

  // The encoder's payload of a value, read without its table.
  lemma ScalarReads(f: Field, v: Value, rest: seq<byte>)
    requires WellFormedField(f) && SafeScalar(f, v)
    ensures EncodeScalar(f, v).Some?
    ensures ReadPayload(TypeOf(f.ltype), EncodeScalar(f, v).value + rest) == Some((ScalarPayload(f, v), rest))
  {
    match f.ltype
    case BOOL => EncodedNumber(if v.b then 1 else 0, rest);
    case VARINT => SignedReads(f, v, rest);
    case UVARINT => EncodedNumber(v.i, rest);
    case SVARINT => ZigZagReads(f, v, rest);
    case FIXED32 =>
      FourOf(v.i, rest);
      assert (LittleEndian(v.i, 4) + rest)[4..] == rest;
    case FIXED64 =>
      EightOf(v.i, rest);
      assert (LittleEndian(v.i, 8) + rest)[8..] == rest;
    case BYTES | STRING | FIXED_LENGTH_BYTES => DelimitedReads(v.data, rest);
  }

  lemma SignedReads(f: Field, v: Value, rest: seq<byte>)
    requires f.ltype.VARINT? && SafeScalar(f, v)
    ensures EncodeScalar(f, v).Some?
    ensures ReadPayload(0, EncodeScalar(f, v).value + rest) == Some((ScalarPayload(f, v), rest))
  {
    SignedNumber(v.i);
    EncodedNumber(VarintPayload(v.i), rest);
  }

  lemma ZigZagReads(f: Field, v: Value, rest: seq<byte>)
    requires f.ltype.SVARINT? && SafeScalar(f, v)
    ensures EncodeScalar(f, v).Some?
    ensures ReadPayload(0, EncodeScalar(f, v).value + rest) == Some((ScalarPayload(f, v), rest))
  {
    ZigZagNumber(v.i);
    EncodedNumber(ZigZag(v.i), rest);
  }

  lemma DelimitedReads(data: seq<byte>, rest: seq<byte>)
    ensures ReadPayload(2, Delimited(data) + rest) == Some((Bytes(data), rest))
  {
    assert Delimited(data) + rest == EncodeVarint(|data|) + (data + rest);
    EncodedNumber(|data|, data + rest);
    assert (data + rest)[..|data|] == data && (data + rest)[|data|..] == rest;
  }

  lemma KeyedReads(wireType: nat, number: nat, b: seq<byte>, payload: Payload, rest: seq<byte>)
    requires wireType < 8 && ReadPayload(wireType, b) == Some((payload, rest))
    ensures ReadKeyed(number * 8 + wireType, b) == Some((Record(number, payload), rest))
  {
    var key := number * 8 + wireType;
    assert key % 8 == wireType && key / 8 == number;
  }

  lemma ReadSplits(b: seq<byte>, record: Record, rest: seq<byte>)
    requires ReadRecord(b) == Some((record, rest))
    ensures Split(b) == Prepend(record, Split(rest))
  {
  }

  lemma KeyReads(key: nat, b: seq<byte>)
    ensures ReadRecord(EncodeVarint(key) + b) == ReadKeyed(key, b)
  {
    EncodedNumber(key, b);
  }

  // A key and a payload.
  lemma RecordReads(wireType: nat, number: nat, body: seq<byte>, payload: Payload, rest: seq<byte>)
    requires wireType < 8 && ReadPayload(wireType, body + rest) == Some((payload, rest))
    ensures Split(EncodeTag(wireType, number) + body + rest) == Prepend(Record(number, payload), Split(rest))
  {
    var b := EncodeTag(wireType, number) + (body + rest);
    KeyedReads(wireType, number, body + rest, payload, rest);
    KeyReads(number * 8 + wireType, body + rest);
    ReadSplits(b, Record(number, payload), rest);
    assert EncodeTag(wireType, number) + body + rest == b;
  }

  // ------------------------------------------------------------- whole fields

  // The payload of any value: that of a submessage is a message again.
  ghost function ValuePayload(f: Field, v: Value): Payload
    requires WellFormedField(f) && SafeValue(f, v) && CompleteValue(f, v)
  {
    match f.ltype
    case SUBMESSAGE(fields) =>
      MessageEncodes(fields, v.m, 0);
      Bytes(Encode(fields, v.m).value)
    case _ => ScalarPayload(f, v)
  }

  lemma ValueReads(f: Field, v: Value, rest: seq<byte>)
    requires WellFormedField(f) && SafeValue(f, v) && CompleteValue(f, v)
    ensures EncodeValue(f, v).Some?
    ensures ReadPayload(TypeOf(f.ltype), EncodeValue(f, v).value + rest) == Some((ValuePayload(f, v), rest))
  {
    match f.ltype
    case SUBMESSAGE(fields) =>
      MessageEncodes(fields, v.m, 0);
      DelimitedReads(Encode(fields, v.m).value, rest);
    case _ => ScalarReads(f, v, rest);
  }

  // A singular field is left out when it looks unset: a submessage when all its fields do.
  ghost predicate LooksUnset(f: Field, v: Value)
    decreases f, 0
  {
    match f.ltype
    case BOOL => v == VBool(false)
    case VARINT | UVARINT | SVARINT | FIXED32 | FIXED64 => v == VInt(0)
    case BYTES | STRING => v == VBytes([])
    case FIXED_LENGTH_BYTES => f.dataSize == 0
    case SUBMESSAGE(fields) =>
      v.VMsg? && forall i :: 0 <= i < |fields| ==>
        fields[i].member in v.m && LeftOut(fields[i], v.m[fields[i].member])
  }

  ghost predicate LeftOut(f: Field, slot: Slot)
    decreases f, 1
  {
    match slot
    case Single(v) => f.htype.OPTIONAL? && f.sizeOffset == 0 && LooksUnset(f, v)
    case Opt(has, _) => f.htype.OPTIONAL? && f.sizeOffset != 0 && !has
    case Arr(items) => f.htype.REPEATED? && f.sizeOffset != 0 && items == []
    case UnionNone => f.htype.ONEOF?
    case Union(_, _) => false
  }

  lemma {:induction false} UnsetAlike(f: Field, v: Value)
    ensures LooksUnset(f, v) <==> IsZero(f, v)
    decreases f, 0
  {
    if f.ltype.SUBMESSAGE? && v.VMsg? {
      var fields := f.ltype.fields;
      forall i | 0 <= i < |fields| && fields[i].member in v.m
        ensures LeftOut(fields[i], v.m[fields[i].member]) <==> IsDefault(fields[i], v.m[fields[i].member])
      {
        if v.m[fields[i].member].Single? {
          UnsetAlike(fields[i], v.m[fields[i].member].v);
        }
      }
    }
  }

  // ------------------------------------------------------------------- arrays

  // Arrays of numbers, of whatever form, are packed.
  predicate IsPacked(t: LType) {
    t.BOOL? || t.VARINT? || t.UVARINT? || t.SVARINT? || t.FIXED32? || t.FIXED64?
  }

  function ScalarPayloads(f: Field, items: seq<Value>): seq<Payload>
    requires forall v :: v in items ==> SafeScalar(f, v)
  {
    if items == [] then [] else [ScalarPayload(f, items[0])] + ScalarPayloads(f, items[1..])
  }

  lemma PackedSplits(wireType: nat, b: seq<byte>, payload: Payload, rest: seq<byte>)
    requires ReadPayload(wireType, b) == Some((payload, rest)) && SplitPacked(wireType, rest).Some?
    ensures SplitPacked(wireType, b) == Some([payload] + SplitPacked(wireType, rest).value)
  {
  }

  // The body of a packed array holds exactly its values, in order.
  lemma {:induction false} PackedReads(f: Field, items: seq<Value>) returns (bytes: seq<byte>)
    requires WellFormedField(f) && forall v :: v in items ==> SafeScalar(f, v)
    ensures PackedItems(f, items) == Some(bytes)
    ensures SplitPacked(TypeOf(f.ltype), bytes) == Some(ScalarPayloads(f, items))
  {
    if items == [] {
      bytes := [];
    } else {
      var others := PackedReads(f, items[1..]);
      ScalarReads(f, items[0], others);
      bytes := EncodeScalar(f, items[0]).value + others;
      PackedFirst(f, items);
      PackedSplits(TypeOf(f.ltype), bytes, ScalarPayload(f, items[0]), others);
    }
  }

  // What the encoder demands of a value.
  ghost predicate Fine(f: Field, v: Value) {
    WellFormedField(f) && SafeValue(f, v) && CompleteValue(f, v)
  }

  ghost predicate AllFine(f: Field, items: seq<Value>) {
    forall v {:trigger Fine(f, v)} :: v in items ==> Fine(f, v)
  }

  // Other arrays have a record for each entry.
  ghost function EntryRecords(f: Field, items: seq<Value>): seq<Record>
    requires AllFine(f, items)
  {
    if items == [] then [] else
    assert Fine(f, items[0]);
    [Record(f.tag, ValuePayload(f, items[0]))] + EntryRecords(f, items[1..])
  }

  // One value with its key.
  lemma ValueRecord(f: Field, v: Value, rest: seq<byte>) returns (bytes: seq<byte>)
    requires Fine(f, v)
    ensures Cat(Some(TagFor(f)), EncodeValue(f, v)) == Some(bytes)
    ensures Split(bytes + rest) == Prepend(Record(f.tag, ValuePayload(f, v)), Split(rest))
  {
    ValueReads(f, v, rest);
    RecordReads(TypeOf(f.ltype), f.tag, EncodeValue(f, v).value, ValuePayload(f, v), rest);
    bytes := EncodeTag(TypeOf(f.ltype), f.tag) + EncodeValue(f, v).value;
  }

  lemma ItemsUnfold(f: Field, items: seq<Value>, first: seq<byte>, others: seq<byte>)
    requires items != [] && Cat(Some(TagFor(f)), EncodeValue(f, items[0])) == Some(first)
    requires UnpackedItems(f, items[1..]) == Some(others)
    ensures UnpackedItems(f, items) == Some(first + others)
  {
  }

  lemma SplitJoins(first: seq<byte>, others: seq<byte>, rest: seq<byte>,
                   record: Record, there: seq<Record>, records: seq<Record>)
    requires Split(first + (others + rest)) == Prepend(record, Split(others + rest))
    requires Split(others + rest) == Some(there + records)
    ensures Split(first + others + rest) == Some([record] + there + records)
  {
    assert first + others + rest == first + (others + rest);
    assert [record] + there + records == [record] + (there + records);
  }

  lemma {:induction false} EntriesRead(f: Field, items: seq<Value>, rest: seq<byte>, records: seq<Record>)
    returns (bytes: seq<byte>)
    requires AllFine(f, items) && Split(rest) == Some(records)
    ensures UnpackedItems(f, items) == Some(bytes)
    ensures Split(bytes + rest) == Some(EntryRecords(f, items) + records)
  {
    bytes := [];
    if items == [] {
      assert [] + rest == rest && [] + records == records;
    } else {
      assert Fine(f, items[0]);
      var others := EntriesRead(f, items[1..], rest, records);
      var first := ValueRecord(f, items[0], others + rest);
      ItemsUnfold(f, items, first, others);
      SplitJoins(first, others, rest, Record(f.tag, ValuePayload(f, items[0])), EntryRecords(f, items[1..]), records);
      bytes := first + others;
    }
  }

  // ------------------------------------------------------------ whole messages

  // What the encoder demands of a member, seen from one of its entries.
  ghost predicate FineSlot(f: Field, slot: Slot) {
    match slot
    case Single(v) => (f.htype.REQUIRED? || (f.htype.OPTIONAL? && f.sizeOffset == 0)) && Fine(f, v)
    case Opt(has, v) => f.htype.OPTIONAL? && f.sizeOffset != 0 && (has ==> Fine(f, v))
    case Arr(items) =>
      && f.htype.REPEATED? && WellFormedField(f) && AllFine(f, items)
      && (if f.sizeOffset == 0 then |items| == f.arraySize else |items| <= f.arraySize)
    case UnionNone => f.htype.ONEOF?
    case Union(which, v) => f.htype.ONEOF? && (which == f.tag ==> Fine(f, v))
  }

  // The records of one field.  Only the chosen field of a union has one.
  ghost function FieldRecords(f: Field, slot: Slot): seq<Record>
    requires FineSlot(f, slot)
  {
    match slot
    case Single(v) => if LeftOut(f, slot) then [] else [Record(f.tag, ValuePayload(f, v))]
    case Opt(has, v) => if has then [Record(f.tag, ValuePayload(f, v))] else []
    case Arr(items) =>
      if items == [] then []
      else if IsPacked(f.ltype) then [Record(f.tag, Bytes(PackedBody(f, items)))]
      else EntryRecords(f, items)
    case UnionNone => []
    case Union(which, v) => if which == f.tag then [Record(f.tag, ValuePayload(f, v))] else []
  }

  // The body of a packed array; PackedReads says what is in it.
  ghost function PackedBody(f: Field, items: seq<Value>): seq<byte> {
    var body := PackedItems(f, items);
    if body.Some? then body.value else []
  }

  ghost predicate FineEntry(d: seq<Field>, m: Struct, i: nat)
    requires i < |d|
  {
    d[i].member in m && FineSlot(d[i], m[d[i].member])
  }

  ghost predicate FineStruct(d: seq<Field>, m: Struct) {
    forall i {:trigger FineEntry(d, m, i)} :: 0 <= i < |d| ==> FineEntry(d, m, i)
  }

  // The records of the fields from the i-th on, in the order of the table.
  ghost function MessageRecords(d: seq<Field>, m: Struct, i: nat): seq<Record>
    requires FineStruct(d, m) && i <= |d|
    decreases |d| - i
  {
    if i == |d| then [] else
    assert FineEntry(d, m, i);
    FieldRecords(d[i], m[d[i].member]) + MessageRecords(d, m, i + 1)
  }

  lemma {:induction false} StructFine(d: seq<Field>, m: Struct)
    requires WellFormedTable(d) && Safe(d, m) && Complete(d, m)
    ensures FineStruct(d, m)
  {
    forall i | 0 <= i < |d|
      ensures FineEntry(d, m, i)
    {
      SlotFine(d, i, m[d[i].member]);
    }
  }

  lemma SlotFine(d: seq<Field>, i: nat, slot: Slot)
    requires WellFormedTable(d) && i < |d| && SafeSlot(d, i, slot) && CompleteSlot(d, i, slot)
    ensures FineSlot(d[i], slot)
  {
    if slot.Union? && slot.which == d[i].tag {
      var j :| 0 <= j < |d| && d[j].tag == slot.which && d[j].member == d[i].member && SafeValue(d[j], slot.payload);
      assert i == j;
    }
  }

  lemma PackedRecord(f: Field, items: seq<Value>, rest: seq<byte>, records: seq<Record>) returns (bytes: seq<byte>)
    requires FineSlot(f, Arr(items)) && items != [] && IsPacked(f.ltype) && Split(rest) == Some(records)
    ensures EncodeArray(f, items) == Some(bytes)
    ensures Split(bytes + rest) == Some([Record(f.tag, Bytes(PackedBody(f, items)))] + records)
  {
    forall v | v in items
      ensures SafeScalar(f, v)
    {
      assert Fine(f, v);
    }
    var body := PackedReads(f, items);
    DelimitedReads(body, rest);
    RecordReads(2, f.tag, Delimited(body), Bytes(body), rest);
    bytes := EncodeTag(2, f.tag) + Delimited(body);
  }

  lemma FieldReads(f: Field, slot: Slot, rest: seq<byte>, records: seq<Record>) returns (bytes: seq<byte>)
    requires FineSlot(f, slot) && Split(rest) == Some(records)
    ensures EncodeField(f, slot) == Some(bytes)
    ensures Split(bytes + rest) == Some(FieldRecords(f, slot) + records)
  {
    bytes := [];
    if FieldRecords(f, slot) == [] {
      NothingWritten(f, slot);
      assert [] + rest == rest && [] + records == records;
    } else {
      match slot
      case Single(v) =>
        UnsetAlike(f, v);
        bytes := ValueRecord(f, v, rest);
      case Opt(_, v) => bytes := ValueRecord(f, v, rest);
      case Union(_, v) => bytes := ValueRecord(f, v, rest);
      case Arr(items) =>
        if IsPacked(f.ltype) {
          bytes := PackedRecord(f, items, rest, records);
        } else {
          bytes := EntriesRead(f, items, rest, records);
        }
    }
  }

  lemma NothingWritten(f: Field, slot: Slot)
    requires FineSlot(f, slot) && FieldRecords(f, slot) == []
    ensures EncodeField(f, slot) == Some([])
  {
    if slot.Single? {
      UnsetAlike(f, slot.v);
    }
  }

  lemma {:induction false} MessageReads(d: seq<Field>, m: Struct, i: nat) returns (bytes: seq<byte>)
    requires FineStruct(d, m) && i <= |d|
    ensures EncodeFrom(d, m, i) == Some(bytes)
    ensures Split(bytes) == Some(MessageRecords(d, m, i))
    decreases |d| - i
  {
    bytes := [];
    if i < |d| {
      assert FineEntry(d, m, i);
      var rest := MessageReads(d, m, i + 1);
      var first := FieldReads(d[i], m[d[i].member], rest, MessageRecords(d, m, i + 1));
      bytes := first + rest;
    }
  }

  // Read without any table, the encoder's output is exactly the records of the fields
  // that are present, in order, each with its number, its wire type and its value.
  lemma EncodedSplits(d: seq<Field>, m: Struct)
    requires WellFormedTable(d) && Safe(d, m) && Complete(d, m)
    ensures FineStruct(d, m) && Encode(d, m).Some?
    ensures Split(Encode(d, m).value) == Some(MessageRecords(d, m, 0))
  {
    StructFine(d, m);
    var bytes := MessageReads(d, m, 0);
  }

  // ------------------------------------------------------------------ skipping

  // pb_skip_field skips exactly the payload that the reader reads, on every input, and
  // refuses the wire types it does not know.  A length has to be below 2^32.
  lemma SkipsPayload(wireType: nat, b: seq<byte>)
    requires wireType == 2 && ReadNumber(b).Some? ==> ReadNumber(b).value.0 < 0x1_0000_0000
    ensures SkipField(wireType, b)
         == if ReadPayload(wireType, b).None? then Err else Ok((), ReadPayload(wireType, b).value.1)
  {
    match wireType
    case 0 => SkipsNumber(b);
    case 2 =>
      if ReadNumber(b).Some? {
        Decodes32(b);
      } else {
        NoNumber32(b);
      }
    case _ =>
  }

  lemma {:induction false} Unfinished32(b: seq<byte>, result: uint32, bitpos: byte)
    requires ReadNumber(b).None?
    ensures Varint32From(b, result, bitpos) == Err
    decreases |b|
  {
    if b != [] {
      match AbsorbByte(b[0], result, bitpos)
      case None =>
      case Some(result') => Unfinished32(b[1..], result', NextBitpos(bitpos));
    }
  }

  lemma NoNumber32(b: seq<byte>)
    requires ReadNumber(b).None?
    ensures DecodeVarint32(b) == Err
  {
    if b != [] {
      Unfinished32(b[1..], b[0] % 128, 7);
    }
  }

  lemma ZeroDigit(c: byte, rest: seq<byte>, bitpos: byte)
    requires c >= 128 && bitpos < 32 && Shl(c % 128, bitpos) % 0x1_0000_0000 == 0
    ensures Varint32From([c] + rest, 0, bitpos) == Varint32From(rest, 0, bitpos + 7)
  {
    assert ([c] + rest)[1..] == rest;
  }

  lemma ZeroDigitRead(rest: seq<byte>)
    requires ReadNumber(rest).Some?
    ensures ReadNumber([0x80] + rest) == Some((128 * ReadNumber(rest).value.0, ReadNumber(rest).value.1))
  {
    assert ([0x80] + rest)[1..] == rest;
  }

  // A longer one may be taken for a shorter: the bits of the fifth byte that do not fit in
  // 32 are dropped when another byte follows.
  lemma LongLengthMisread()
    ensures
      var b := [0x80] + ([0x80] + ([0x80] + ([0x80] + ([0xF0] + [0]))));
      && ReadNumber(b) == Some((0x7_0000_0000, [])) && ReadPayload(2, b) == None
      && SkipField(2, b) == Ok((), [])
  {
    var b1: seq<byte> := [0xF0] + [0];
    var b2, b3, b4 := [0x80] + b1, [0x80] + ([0x80] + b1), [0x80] + ([0x80] + ([0x80] + b1));
    var b := [0x80] + b4;
    assert b1[1..] == [0] && b[1..] == b4;
    assert ReadNumber(b1) == Some((0x70, []));
    ZeroDigitRead(b1);
    ZeroDigitRead(b2);
    ZeroDigitRead(b3);
    ZeroDigitRead(b4);
    ShlZero(7);
    ShlZero(14);
    ShlZero(21);
    DroppedDigit();
    ZeroDigit(0x80, b3, 7);
    ZeroDigit(0x80, b2, 14);
    ZeroDigit(0x80, b1, 21);
    ZeroDigit(0xF0, [0], 28);
    assert DecodeVarint32(b) == Ok(0, []);
  }

  lemma DroppedDigit()
    ensures Shl(0x70, 28) % 0x1_0000_0000 == 0
  {
    ShlTimes(0x70, 28);
    PowersOfTwo();
  }

  // pb_decode_tag reads a key; a key of zero ends the message.
  lemma TagsRead(b: seq<byte>)
    requires ReadNumber(b).Some? && ReadNumber(b).value.0 < 0x1_0000_0000
    ensures
      var (key, rest) := ReadNumber(b).value;
      DecodeTag(b) == if key == 0 then Stop(rest) else Tag(key / 8, key % 8, rest)
  {
    Decodes32(b);
  }
}
