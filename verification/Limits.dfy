// What the codec accepts and refuses: exact conditions for the errors of the
// encoder and the decoder that depend on sizes and counts.
module Limits {
  import opened Wrappers
  import opened Bits
  import opened Varint
  import opened Descriptor
  import opened EncodeSpec
  import opened DecodeSpec
  import opened WellFormed
  import opened ValueRoundTrip
  import opened Records
  import opened Extension
  import opened LastWins

  // ------------------------------------------------------------------- arrays

  // A packed array with more entries than there is room for is an error.
  lemma {:induction false} PackedOverflows(f: Field, known: seq<Value>, c: nat, items: seq<Value>)
    returns (bytes: seq<byte>)
    requires WellFormedField(f) && forall v :: v in items ==> SafeScalar(f, v)
    requires c <= |known| && c <= f.arraySize < c + |items|
    ensures PackedItems(f, items) == Some(bytes)
    ensures DecodePacked(f, ArrayState(known, c), bytes).None?
    decreases |items|
  {
    PackedEncodes(f, items[1..]);
    var others := PackedItems(f, items[1..]).value;
    ScalarRoundTrip(f, items[0], others);
    bytes := EncodeScalar(f, items[0]).value + others;
    PackedFirst(f, items);
    if c == f.arraySize {
      NotEmpty(f, items[0]);
      PackedEnd(f, ArrayState(known, c), bytes);
    } else {
      var same := PackedOverflows(f, Put(known, c, items[0]), c + 1, items[1..]);
      PackedNext(f, ArrayState(known, c), bytes, Ok(items[0], others));
    }
  }

  lemma NotEmpty(f: Field, v: Value)
    requires WellFormedField(f) && SafeScalar(f, v)
    ensures EncodeScalar(f, v).Some? && EncodeScalar(f, v).value != []
  {
    ScalarRoundTrip(f, v, []);
    var b := EncodeScalar(f, v).value;
    assert b + [] == b;
  }

  // So is another entry for an array that is full.
  lemma FullArrayRefuses(d: seq<Field>, st: LoopState, i: nat, wireType: nat, payload: seq<byte>)
    requires i < |d| && FindTag(d, d[i].tag) == Some(i) && 0 < d[i].tag < 0x2000_0000 && wireType < 8
    requires Counted(d[i]) && !(wireType == 2 && Packable(d[i].ltype))
    requires d[i].member in st.m && st.m[d[i].member].Arr? && |st.m[d[i].member].items| >= d[i].arraySize
    ensures DecodeLoop(d, st, EncodeTag(wireType, d[i].tag) + payload).Failed?
  {
    KnownRecord(d, st, i, wireType, payload);
    assert DecodeField(d, st, i, wireType, payload) == Fail;
  }

  // An array of fixed count that comes packed has to come whole; it then replaces what
  // was there.
  lemma FixedArrayExactly(d: seq<Field>, m: Struct, i: nat, items: seq<Value>) returns (bytes: seq<byte>)
    requires WellFormedTable(d) && i < |d| && FixedCount(d[i]) && Packable(d[i].ltype)
    requires forall j :: 0 <= j < |d| ==> !d[j].htype.REQUIRED?
    requires d[i].member in m && m[d[i].member].Arr? && |m[d[i].member].items| <= d[i].arraySize
    requires items != [] && (forall v :: v in items ==> SafeScalar(d[i], v)) && |items| < 0x1000_0000
    ensures PackedItems(d[i], items) == Some(bytes)
    ensures
      var r := DecodeNoinit(d, m, EncodeTag(2, d[i].tag) + Delimited(bytes));
      if |items| == d[i].arraySize then r == Ok(m[d[i].member := Arr(items)], []) else r.Err?
  {
    var f, known := d[i], m[d[i].member].items;
    FindTagUnique(d, i);
    PackedEncodes(f, items);
    bytes := PackedItems(f, items).value;
    PackedBound(f, items);
    var b := EncodeTag(2, f.tag) + Delimited(bytes);
    SkipDelimited(bytes, []);
    assert Delimited(bytes) + [] == Delimited(bytes);
    KnownRecord(d, Start(m), i, 2, Delimited(bytes));
    if |items| > f.arraySize {
      var same := PackedOverflows(f, known, 0, items);
      assert DecodeField(d, Start(m), i, 2, Delimited(bytes)) == Fail;
    } else {
      var all := Overwrite(known, 0, items);
      var same := PackedOverwrites(f, known, 0, items, all);
      FixedArrayEnds(d, m, i, b, Delimited(bytes), all, |items|);
      if |items| == f.arraySize {
        assert all == items;
      }
    }
  }

  lemma FixedArrayEnds(d: seq<Field>, m: Struct, i: nat, b: seq<byte>, payload: seq<byte>, all: seq<Value>, count: nat)
    requires i < |d| && FixedCount(d[i]) && d[i].member in m && m[d[i].member].Arr?
    requires forall j :: 0 <= j < |d| ==> !d[j].htype.REQUIRED?
    ensures b != [] && DecodeRecord(d, Start(m), b) == DecodeField(d, Start(m), i, 2, payload)
      && DecodeEntry(d[i], ArrayState(m[d[i].member].items, 0), 2, payload) == Ok(ArrayState(all, count), [])
      ==> DecodeNoinit(d, m, b) == (if count == d[i].arraySize then Ok(m[d[i].member := Arr(all)], []) else Err)
  {
    var st := LoopState(m[d[i].member := Arr(all)], {}, Some(i), count);
    if b != [] && DecodeRecord(d, Start(m), b) == DecodeField(d, Start(m), i, 2, payload)
       && DecodeEntry(d[i], ArrayState(m[d[i].member].items, 0), 2, payload) == Ok(ArrayState(all, count), []) {
      assert DecodeField(d, Start(m), i, 2, payload) == Next(st, []);
      LoopStep(d, Start(m), b, st, []);
    }
  }

  // The encoder refuses an array with more entries than its size.
  lemma {:induction false} OversizedArrayRefused(d: seq<Field>, m: Struct, i: nat, n: nat)
    requires n <= i < |d| && d[i].htype.REPEATED? && d[i].member in m && m[d[i].member].Arr?
    requires |m[d[i].member].items| > d[i].arraySize
    ensures EncodeFrom(d, m, n).None?
    decreases i - n
  {
    if n < i {
      OversizedArrayRefused(d, m, i, n + 1);
    } else {
      assert EncodeField(d[i], m[d[i].member]).None?;
    }
  }

  // ------------------------------------------------------------- sized contents

  // A byte string is accepted exactly if it fits its member behind its size, a string
  // exactly if it fits with its terminator, fixed-length bytes exactly if they have the
  // length of the member or none.
  lemma BlockAccepted(f: Field, data: seq<byte>, rest: seq<byte>)
    requires f.ltype.BYTES? || f.ltype.STRING? || f.ltype.FIXED_LENGTH_BYTES?
    requires |data| < 0x1_0000_0000 && f.dataSize <= PB_SIZE_MAX
    ensures DecodeScalar(f, Delimited(data) + rest).Ok? <==>
      match f.ltype
      case BYTES => COUNT_SIZE + |data| <= f.dataSize
      case STRING => |data| < f.dataSize
      case _ => |data| == f.dataSize || data == []
  {
    assert Delimited(data) + rest == EncodeVarint(|data|) + (data + rest);
    Varint32RoundTrip(|data|, data + rest);
  }

  // Bytes come as sent; a string ends at its first zero byte; no fixed-length bytes are
  // zero bytes.
  lemma BlockContents(f: Field, data: seq<byte>, rest: seq<byte>)
    requires f.ltype.BYTES? || f.ltype.STRING? || f.ltype.FIXED_LENGTH_BYTES?
    requires |data| < 0x1_0000_0000 && f.dataSize <= PB_SIZE_MAX && DecodeScalar(f, Delimited(data) + rest).Ok?
    ensures
      var r := DecodeScalar(f, Delimited(data) + rest);
      && r.rest == rest && r.value.VBytes?
      && match f.ltype
         case BYTES => r.value.data == data
         case STRING =>
           && r.value.data <= data && 0 !in r.value.data
           && (r.value.data == data || data[|r.value.data|] == 0)
         case _ =>
           if data != [] then r.value.data == data
           else |r.value.data| == f.dataSize && forall b :: b in r.value.data ==> b == 0
  {
    assert Delimited(data) + rest == EncodeVarint(|data|) + (data + rest);
    Varint32RoundTrip(|data|, data + rest);
    assert (data + rest)[..|data|] == data && (data + rest)[|data|..] == rest;
    CutAtNul(data);
  }

  lemma {:induction false} CutAtNul(b: seq<byte>)
    ensures UpToNul(b) <= b && 0 !in UpToNul(b) && (UpToNul(b) == b || b[|UpToNul(b)|] == 0)
  {
    if b != [] && b[0] != 0 {
      CutAtNul(b[1..]);
      assert b == [b[0]] + b[1..];
    }
  }

  // Every number below 2^32 but zero is true.
  lemma AnyNumberIsTrue(f: Field, v: nat, rest: seq<byte>)
    requires f.ltype.BOOL? && v < 0x1_0000_0000
    ensures DecodeScalar(f, EncodeVarint(v) + rest) == Ok(VBool(v != 0), rest)
  {
    Varint32RoundTrip(v, rest);
  }

  // A count has as many bytes as the largest count calls for.
  lemma CountSizes()
    ensures PB_SIZE_MAX + 1 == Shl(1, 8 * COUNT_SIZE)
  {
    PowersOfTwo();
    assert Shl(1, 8) == 0x100;
    ShlShl(1, 8, 8);
    assert Shl(0x100, 8) == 0x1_0000;
  }

  // No value is decoded from a part of its bytes.
  lemma TruncatedRefused(f: Field, v: Value, part: seq<byte>, missing: seq<byte>)
    requires WellFormedField(f) && SafeScalar(f, v) && missing != []
    requires EncodeScalar(f, v) == Some(part + missing)
    ensures DecodeScalar(f, part).Err?
  {
    ScalarRoundTrip(f, v, []);
    assert part + missing + [] == part + missing;
    if DecodeScalar(f, part).Ok? {
      ScalarExtends(f, part, missing);
    }
  }

  // A zero byte where a tag should be ends the message, whatever follows.
  lemma ZeroTagStops(d: seq<Field>, st: LoopState, tail: seq<byte>)
    ensures DecodeLoop(d, st, [0] + tail) == Stopped(st, tail)
  {
    var b := [0] + tail;
    assert b[1..] == tail;
    assert DecodeVarint32(b) == Ok(0, tail);
  }
}
