// A field that comes more than once: the last value wins, submessages are merged, a
// oneof starts again, and arrays grow or, with a fixed count, are overwritten.
module LastWins {
  import opened Wrappers
  import opened Bits
  import opened Varint
  import opened Descriptor
  import opened EncodeSpec
  import opened DecodeSpec
  import opened WellFormed
  import opened ValueRoundTrip
  import opened Records
  import opened Merge

  // The slot has the kind that the field calls for, whatever it holds.
  predicate KindOf(f: Field, slot: Slot) {
    match f.htype
    case REQUIRED => slot.Single?
    case OPTIONAL => if f.sizeOffset != 0 then slot.Opt? else slot.Single?
    case ONEOF => slot.UnionNone? || slot.Union?
    case REPEATED => false
  }

  // The value it holds, present or not.
  function Held(slot: Slot): Value
    requires slot.Single? || slot.Opt?
  {
    if slot.Single? then slot.v else slot.content
  }

  // The slot after the value has been received: present, and the choice of its union.
  function Assigned(f: Field, v: Value): Slot {
    match f.htype
    case OPTIONAL => if f.sizeOffset != 0 then Opt(true, v) else Single(v)
    case ONEOF => Union(f.tag, v)
    case _ => Single(v)
  }

  function Assign(d: seq<Field>, st: LoopState, i: nat, v: Value): LoopState
    requires i < |d|
  {
    st.(m := st.m[d[i].member := Assigned(d[i], v)],
        seen := if d[i].htype.REQUIRED? then st.seen + {i} else st.seen)
  }

  // The field is in the table, and its slot in the struct.
  ghost predicate Ready(d: seq<Field>, st: LoopState, i: nat) {
    && i < |d| && WellFormedField(d[i]) && FindTag(d, d[i].tag) == Some(i)
    && d[i].member in st.m && KindOf(d[i], st.m[d[i].member])
  }

  // What the decoder of a field starts from.
  ghost function Current(f: Field, slot: Slot): Value
    requires KindOf(f, slot)
  {
    if f.htype.ONEOF? then DefaultValue(f) else Held(slot)
  }

  lemma RecordAssigns(d: seq<Field>, st: LoopState, i: nat, wireType: nat, body: seq<byte>, v: Value, tail: seq<byte>)
    requires Ready(d, st, i) && wireType < 8
    requires DecodeValue(d[i], Current(d[i], st.m[d[i].member]), body + tail) == Ok(v, tail)
    ensures DecodeLoop(d, st, EncodeTag(wireType, d[i].tag) + body + tail) == DecodeLoop(d, Assign(d, st, i, v), tail)
  {
    assert DecodeSingle(d[i], st.m[d[i].member], body + tail) == Ok(Assigned(d[i], v), tail);
    KnownStep(d, st, i, wireType, body, Assign(d, st, i, v), tail);
  }

  // Whatever the field held before, present or not, and whatever its union had chosen:
  // after a record of a scalar it holds exactly the value sent.  The wire type of the
  // record does not matter.
  lemma ScalarReplaces(d: seq<Field>, st: LoopState, i: nat, wireType: nat, v: Value, tail: seq<byte>)
    requires Ready(d, st, i) && SafeScalar(d[i], v) && wireType < 8
    ensures EncodeScalar(d[i], v).Some?
    ensures DecodeLoop(d, st, EncodeTag(wireType, d[i].tag) + EncodeScalar(d[i], v).value + tail)
         == DecodeLoop(d, Assign(d, st, i, v), tail)
  {
    ScalarRoundTrip(d[i], v, tail);
    RecordAssigns(d, st, i, wireType, EncodeScalar(d[i], v).value, v, tail);
  }

  // A submessage is decoded into what the field holds; in a oneof, into fresh defaults,
  // whatever the union held.
  lemma SubmessageAssigns(d: seq<Field>, st: LoopState, i: nat, wireType: nat, fields: seq<Field>, start: Struct,
                          body: seq<byte>, tail: seq<byte>)
    requires Ready(d, st, i) && d[i].ltype == SUBMESSAGE(fields) && wireType < 8 && |body| < TWO_TO_32
    requires if d[i].htype.ONEOF? then start == Defaults(fields) else Held(st.m[d[i].member]) == VMsg(start)
    requires DecodeNoinit(fields, start, body).Ok?
    ensures DecodeLoop(d, st, Record(d[i], wireType, body) + tail)
         == DecodeLoop(d, Assign(d, st, i, VMsg(DecodeNoinit(fields, start, body).value)), tail)
  {
    SkipDelimited(body, tail);
    RecordAssigns(d, st, i, wireType, Delimited(body), VMsg(DecodeNoinit(fields, start, body).value), tail);
  }

  // A record with a length-delimited body.
  function Record(f: Field, wireType: nat, body: seq<byte>): seq<byte> {
    EncodeTag(wireType, f.tag) + Delimited(body)
  }

  lemma SubmessageTwice(d: seq<Field>, st: LoopState, i: nat, wireType: nat, fields: seq<Field>, start: Struct,
                        b1: seq<byte>, b2: seq<byte>, m1: Struct, m2: Struct, tail: seq<byte>)
    requires Ready(d, st, i) && d[i].ltype == SUBMESSAGE(fields) && wireType < 8
    requires |b1| < TWO_TO_32 && |b2| < TWO_TO_32
    requires !d[i].htype.ONEOF? && Held(st.m[d[i].member]) == VMsg(start)
    requires DecodeNoinit(fields, start, b1).Ok? && DecodeNoinit(fields, start, b1).value == m1
    requires DecodeNoinit(fields, m1, b2).Ok? && DecodeNoinit(fields, m1, b2).value == m2
    ensures DecodeLoop(d, st, Record(d[i], wireType, b1) + (Record(d[i], wireType, b2) + tail))
         == DecodeLoop(d, Assign(d, st, i, VMsg(m2)), tail)
  {
    var st1 := Assign(d, st, i, VMsg(m1));
    SubmessageAssigns(d, st, i, wireType, fields, start, b1, Record(d[i], wireType, b2) + tail);
    SubmessageAssigns(d, st1, i, wireType, fields, m1, b2, tail);
    assert Assign(d, st1, i, VMsg(m2)) == Assign(d, st, i, VMsg(m2));
  }

  // Two records of a required or optional submessage are one with the bodies joined.
  lemma SubmessagesMerge(d: seq<Field>, st: LoopState, i: nat, wireType: nat, fields: seq<Field>, start: Struct,
                         b1: seq<byte>, b2: seq<byte>, tail: seq<byte>)
    requires Ready(d, st, i) && d[i].ltype == SUBMESSAGE(fields) && wireType < 8 && |b1 + b2| < TWO_TO_32
    requires !d[i].htype.ONEOF? && Held(st.m[d[i].member]) == VMsg(start)
    requires forall j :: 0 <= j < |fields| ==> !FixedCount(fields[j])
    requires WholeMessage(fields, start, b1) && DecodeNoinit(fields, DecodeNoinit(fields, start, b1).value, b2).Ok?
    ensures DecodeLoop(d, st, Record(d[i], wireType, b1) + (Record(d[i], wireType, b2) + tail))
         == DecodeLoop(d, st, Record(d[i], wireType, b1 + b2) + tail)
  {
    var m1 := DecodeNoinit(fields, start, b1).value;
    WithoutFixedArrays(fields, start, b1, b2);
    SubmessageTwice(d, st, i, wireType, fields, start, b1, b2, m1, DecodeNoinit(fields, m1, b2).value, tail);
    SubmessageAssigns(d, st, i, wireType, fields, start, b1 + b2, tail);
  }

  // A second record of a oneof submessage starts from the defaults again.
  lemma OneofRestarts(d: seq<Field>, st: LoopState, i: nat, wireType: nat, fields: seq<Field>,
                      b1: seq<byte>, b2: seq<byte>, tail: seq<byte>)
    requires Ready(d, st, i) && d[i].ltype == SUBMESSAGE(fields) && d[i].htype.ONEOF? && wireType < 8
    requires |b1| < TWO_TO_32 && DecodeNoinit(fields, Defaults(fields), b1).Ok?
    requires |b2| < TWO_TO_32 && DecodeNoinit(fields, Defaults(fields), b2).Ok?
    ensures DecodeLoop(d, st, Record(d[i], wireType, b1) + (Record(d[i], wireType, b2) + tail))
         == DecodeLoop(d, st, Record(d[i], wireType, b2) + tail)
  {
    var v1 := VMsg(DecodeNoinit(fields, Defaults(fields), b1).value);
    var v2 := VMsg(DecodeNoinit(fields, Defaults(fields), b2).value);
    SubmessageAssigns(d, st, i, wireType, fields, Defaults(fields), b1, Record(d[i], wireType, b2) + tail);
    SubmessageAssigns(d, Assign(d, st, i, v1), i, wireType, fields, Defaults(fields), b2, tail);
    SubmessageAssigns(d, st, i, wireType, fields, Defaults(fields), b2, tail);
    assert Assign(d, Assign(d, st, i, v1), i, v2) == Assign(d, st, i, v2);
  }

  // ------------------------------------------------------------------- arrays

  // Entries received from the c-th on replace those that were there.
  function Overwrite(known: seq<Value>, c: nat, items: seq<Value>): seq<Value>
    requires c <= |known|
  {
    if c + |items| < |known| then known[..c] + items + known[c + |items|..] else known[..c] + items
  }

  lemma {:induction false} PackedOverwrites(f: Field, known: seq<Value>, c: nat, items: seq<Value>, all: seq<Value>)
    returns (bytes: seq<byte>)
    requires f.dataSize <= PB_SIZE_MAX && forall v :: v in items ==> SafeScalar(f, v)
    requires c <= |known| && c + |items| <= f.arraySize && all == Overwrite(known, c, items)
    ensures PackedItems(f, items) == Some(bytes)
    ensures DecodePacked(f, ArrayState(known, c), bytes) == Some(ArrayState(all, c + |items|))
    decreases |items|
  {
    if items == [] {
      bytes := [];
      assert all == known;
    } else {
      var known' := Put(known, c, items[0]);
      assert all == Overwrite(known', c + 1, items[1..]);
      var others := PackedOverwrites(f, known', c + 1, items[1..], all);
      ScalarRoundTrip(f, items[0], others);
      bytes := EncodeScalar(f, items[0]).value + others;
      PackedFirst(f, items);
      PackedNext(f, ArrayState(known, c), bytes, Ok(items[0], others));
    }
  }
}
