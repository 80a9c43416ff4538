// Decoding two messages into the same struct, one after the other or as one
// concatenated message.
module Merge {
  import opened Wrappers
  import opened Bits
  import opened Varint
  import opened Descriptor
  import opened DecodeSpec
  import opened WellFormed
  import opened Extension

  // The first fixed count field that the loop receives from b.
  ghost function FirstFixed(d: seq<Field>, st: LoopState, b: seq<byte>): Option<nat>
    decreases |b|
  {
    if b == [] then None else
    match DecodeRecord(d, st, b)
    case Next(st', rest) => if st'.fixedField.Some? then st'.fixedField else FirstFixed(d, st', rest)
    case _ => None
  }

  // Two states of the loop: `late` has been through an earlier message, in which
  // it saw the fields in `seen`, and `new` has not.  They share the struct.
  ghost predicate Alike(d: seq<Field>, late: LoopState, new': LoopState, seen: set<nat>) {
    && late.m == new'.m
    && late.seen == seen + new'.seen
    && if new'.fixedField.None? then FixedComplete(d, late)
       else late.fixedField == new'.fixedField && late.fixedCount == new'.fixedCount
  }

  // The array being received, as decode_static_field finds it.
  function ArrayAt(d: seq<Field>, st: LoopState, i: nat): ArrayState
    requires i < |d| && d[i].member in st.m && st.m[d[i].member].Arr?
  {
    var items := st.m[d[i].member].items;
    ArrayState(items, if !FixedCount(d[i]) then |items| else if st.fixedField == Some(i) then st.fixedCount else 0)
  }

  lemma AlikeField(d: seq<Field>, late: LoopState, new': LoopState, seen: set<nat>, i: nat, wireType: nat, b: seq<byte>)
    requires i < |d| && Alike(d, late, new', seen)
    requires DecodeField(d, new', i, wireType, b).Next?
    requires new'.fixedField.None? && FixedCount(d[i]) ==> late.fixedField != Some(i)
    ensures
      var r := DecodeField(d, new', i, wireType, b);
      var r' := DecodeField(d, late, i, wireType, b);
      r'.Next? && r'.rest == r.rest && Alike(d, r'.st, r.st, seen) &&
      (r.st.fixedField.None? ==> r'.st.fixedField == late.fixedField)
  {
    var f := d[i];
    if f.htype.REPEATED? {
      assert ArrayAt(d, late, i) == ArrayAt(d, new', i);
    } else {
      assert seen + (new'.seen + {i}) == seen + new'.seen + {i};
    }
  }

  lemma AlikeRecord(d: seq<Field>, late: LoopState, new': LoopState, seen: set<nat>, b: seq<byte>)
    requires b != [] && Alike(d, late, new', seen) && !DecodeRecord(d, new', b).Fail?
    requires new'.fixedField.None? && late.fixedField.Some? ==> FirstFixed(d, new', b) != late.fixedField
    ensures DecodeRecord(d, new', b).Halt? ==> DecodeRecord(d, late, b) == DecodeRecord(d, new', b)
    ensures DecodeRecord(d, new', b).Next? ==>
      var r := DecodeRecord(d, new', b);
      var r' := DecodeRecord(d, late, b);
      r'.Next? && r'.rest == r.rest && Alike(d, r'.st, r.st, seen) &&
      (r.st.fixedField.None? ==> r'.st.fixedField == late.fixedField)
  {
    match DecodeTag(b)
    case Tag(tag, wireType, rest) =>
      match FindTag(d, tag) {
        case Some(i) => AlikeField(d, late, new', seen, i, wireType, rest);
        case None =>
      }
    case _ =>
  }

  // How the two loops end.
  ghost predicate AlikeEnd(d: seq<Field>, late: LoopEnd, new': LoopEnd, seen: set<nat>) {
    match new'
    case Failed => true
    case Done(st) => late.Done? && Alike(d, late.st, st, seen)
    case Stopped(st, rest) => late.Stopped? && late.rest == rest && Alike(d, late.st, st, seen)
  }

  lemma {:induction false} AlikeLoop(d: seq<Field>, late: LoopState, new': LoopState, seen: set<nat>, b: seq<byte>)
    requires Alike(d, late, new', seen) && !DecodeLoop(d, new', b).Failed?
    requires new'.fixedField.None? && late.fixedField.Some? ==> FirstFixed(d, new', b) != late.fixedField
    ensures AlikeEnd(d, DecodeLoop(d, late, b), DecodeLoop(d, new', b), seen)
    decreases |b|
  {
    if b != [] {
      AlikeRecord(d, late, new', seen, b);
      var r := DecodeRecord(d, new', b);
      if r.Next? {
        AlikeLoop(d, DecodeRecord(d, late, b).st, r.st, seen, r.rest);
      }
    }
  }

  // ------------------------------------------------- fixed count arrays clash

  // Both loops are at the same fixed count field, which `late` has already filled
  // and of which `new` has no entry yet.
  ghost predicate Clashing(d: seq<Field>, late: LoopState, new': LoopState) {
    && late.m == new'.m
    && late.fixedField.Some? && late.fixedField.value < |d|
    && FixedCount(d[late.fixedField.value])
    && late.fixedCount == d[late.fixedField.value].arraySize > 0
    && (new'.fixedField.None? || (new'.fixedField == late.fixedField && new'.fixedCount == 0))
  }

  // A full array takes no more entries: only an empty packed array is accepted.
  lemma FullArray(f: Field, items: seq<Value>, wireType: nat, b: seq<byte>)
    requires DecodeEntry(f, ArrayState(items, f.arraySize), wireType, b).Ok?
    ensures DecodeEntry(f, ArrayState(items, f.arraySize), wireType, b).value == ArrayState(items, f.arraySize)
    ensures
      var rest := DecodeEntry(f, ArrayState(items, f.arraySize), wireType, b).rest;
      forall c :: DecodeEntry(f, ArrayState(items, c), wireType, b) == Ok(ArrayState(items, c), rest)
  {
  }

  lemma ClashField(d: seq<Field>, late: LoopState, new': LoopState, i: nat, wireType: nat, b: seq<byte>)
    requires i < |d| && Clashing(d, late, new')
    requires DecodeField(d, late, i, wireType, b).Next? && DecodeField(d, new', i, wireType, b).Next?
    requires new'.fixedField.None? && FixedCount(d[i]) ==> late.fixedField == Some(i)
    ensures
      var r := DecodeField(d, new', i, wireType, b);
      var r' := DecodeField(d, late, i, wireType, b);
      r'.rest == r.rest && Clashing(d, r'.st, r.st) && r'.st.fixedField == late.fixedField
  {
    var f := d[i];
    if FixedCount(f) {
      FullArray(f, late.m[f.member].items, wireType, b);
    }
  }

  lemma ClashRecord(d: seq<Field>, late: LoopState, new': LoopState, b: seq<byte>)
    requires b != [] && Clashing(d, late, new')
    requires DecodeRecord(d, late, b).Next? && DecodeRecord(d, new', b).Next?
    requires new'.fixedField.None? ==> FirstFixed(d, new', b) == late.fixedField
    ensures
      var r := DecodeRecord(d, new', b);
      var r' := DecodeRecord(d, late, b);
      r'.rest == r.rest && Clashing(d, r'.st, r.st) && r'.st.fixedField == late.fixedField
  {
    var tag := DecodeTag(b);
    match FindTag(d, tag.tag) {
      case Some(i) => ClashField(d, late, new', i, tag.wireType, tag.rest);
      case None =>
    }
  }

  lemma {:induction false} ClashLoop(d: seq<Field>, late: LoopState, new': LoopState, b: seq<byte>)
    requires Clashing(d, late, new')
    requires new'.fixedField.None? ==> FirstFixed(d, new', b) == late.fixedField
    requires !DecodeLoop(d, new', b).Failed? && FixedComplete(d, DecodeLoop(d, new', b).st)
    ensures DecodeLoop(d, late, b).Failed?
    decreases |b|
  {
    if b != [] && DecodeRecord(d, late, b).Next? && DecodeRecord(d, new', b).Next? {
      ClashRecord(d, late, new', b);
      var r := DecodeRecord(d, new', b);
      ClashLoop(d, DecodeRecord(d, late, b).st, r.st, r.rest);
    }
  }

  // --------------------------------------------------------------- the theorem

  // b is a message by itself: it is decoded to its last byte, without a zero tag.
  ghost predicate WholeMessage(d: seq<Field>, m: Struct, b: seq<byte>) {
    DecodeLoop(d, Start(m), b).Done? && DecodeNoinit(d, m, b).Ok?
  }

  // The second message starts with the fixed count array the first one ended with.
  ghost predicate ArraysMeet(d: seq<Field>, m: Struct, b1: seq<byte>, b2: seq<byte>)
    requires WholeMessage(d, m, b1)
  {
    var last := DecodeLoop(d, Start(m), b1).st;
    last.fixedField.Some? && FirstFixed(d, Start(last.m), b2) == last.fixedField
  }

  ghost predicate FixedFieldKnown(d: seq<Field>, st: LoopState) {
    st.fixedField.Some? ==> st.fixedField.value < |d| && FixedCount(d[st.fixedField.value])
  }

  lemma RecordFixedField(d: seq<Field>, st: LoopState, b: seq<byte>)
    requires FixedFieldKnown(d, st) && DecodeRecord(d, st, b).Next?
    ensures FixedFieldKnown(d, DecodeRecord(d, st, b).st)
  {
    var tag := DecodeTag(b);
    match FindTag(d, tag.tag) {
      case Some(i) =>
        assert DecodeField(d, st, i, tag.wireType, tag.rest).Next?;
      case None =>
    }
  }

  lemma {:induction false} LoopFixedField(d: seq<Field>, st: LoopState, b: seq<byte>)
    requires FixedFieldKnown(d, st) && !DecodeLoop(d, st, b).Failed?
    ensures FixedFieldKnown(d, DecodeLoop(d, st, b).st)
    decreases |b|
  {
    if b != [] {
      var r := DecodeRecord(d, st, b);
      if r.Next? {
        RecordFixedField(d, st, b);
        LoopFixedField(d, r.st, r.rest);
      }
    }
  }

  // Concatenation is merge: decoding b1 and then b2 into the same struct is
  // decoding b1 + b2, except when a fixed count array ends the one and starts the
  // other, in which case the concatenation is rejected.
  lemma ConcatenationMerges(d: seq<Field>, m: Struct, b1: seq<byte>, b2: seq<byte>)
    requires WellFormedTable(d) && WholeMessage(d, m, b1)
    requires DecodeNoinit(d, DecodeNoinit(d, m, b1).value, b2).Ok?
    ensures ArraysMeet(d, m, b1, b2) ==> DecodeNoinit(d, m, b1 + b2).Err?
    ensures !ArraysMeet(d, m, b1, b2) ==>
      DecodeNoinit(d, m, b1 + b2) == DecodeNoinit(d, DecodeNoinit(d, m, b1).value, b2)
  {
    var last := DecodeLoop(d, Start(m), b1).st;
    LoopExtends(d, Start(m), b1, b2);
    if ArraysMeet(d, m, b1, b2) {
      LoopFixedField(d, Start(m), b1);
      ClashLoop(d, last, Start(last.m), b2);
    } else {
      AlikeLoop(d, last, Start(last.m), last.seen, b2);
    }
  }

  // Without such arrays in the table, concatenation always merges.
  lemma WithoutFixedArrays(d: seq<Field>, m: Struct, b1: seq<byte>, b2: seq<byte>)
    requires WellFormedTable(d) && WholeMessage(d, m, b1)
    requires forall i :: 0 <= i < |d| ==> !FixedCount(d[i])
    requires DecodeNoinit(d, DecodeNoinit(d, m, b1).value, b2).Ok?
    ensures DecodeNoinit(d, m, b1 + b2) == DecodeNoinit(d, DecodeNoinit(d, m, b1).value, b2)
  {
    LoopFixedField(d, Start(m), b1);
    ConcatenationMerges(d, m, b1, b2);
  }

  // One such message: a fixed array of one boolean, sent twice.
  function OneFlag(): Field {
    Field(1, BOOL, REPEATED, STATIC, "flags", 0, 0, 1, 1, None)
  }

  function FlagSet(flag: byte): seq<byte> { [8, flag] }

  lemma FlagReceived(st: LoopState, flag: byte, rest: seq<byte>)
    requires flag < 128 && "flags" in st.m && st.m["flags"].Arr? && st.fixedField.None?
    ensures DecodeRecord([OneFlag()], st, FlagSet(flag) + rest)
         == Next(st.(m := st.m["flags" := Arr(Put(st.m["flags"].items, 0, VBool(flag != 0)))],
                     fixedField := Some(0), fixedCount := 1), rest)
  {
    var b := FlagSet(flag) + rest;
    assert b[1..] == [flag] + rest;
    assert ([flag] + rest)[1..] == rest;
    assert DecodeVarint32(b) == Ok(8, b[1..]);
    assert DecodeVarint32(b[1..]) == Ok(flag, rest);
    assert DecodeTag(b) == Tag(1, 0, b[1..]);
    assert FindTag([OneFlag()], 1) == Some(0);
    var f, items := OneFlag(), st.m["flags"].items;
    assert DecodeValue(f, ZeroValue(f), b[1..]) == Ok(VBool(flag != 0), rest);
    assert DecodeEntry(f, ArrayState(items, 0), 0, b[1..]) == Ok(ArrayState(Put(items, 0, VBool(flag != 0)), 1), rest);
    assert DecodeField([f], st, 0, 0, b[1..]).Next?;
  }

  lemma FixedArraysDoNotMerge(m: Struct)
    requires "flags" in m && m["flags"].Arr?
    ensures
      var d, b1, b2 := [OneFlag()], FlagSet(0), FlagSet(1);
      && WholeMessage(d, m, b1)
      && DecodeNoinit(d, DecodeNoinit(d, m, b1).value, b2).Ok?
      && DecodeNoinit(d, m, b1 + b2).Err?
  {
    var d, b1, b2 := [OneFlag()], FlagSet(0), FlagSet(1);
    assert b1 + [] == b1 && b2 + [] == b2;
    FlagReceived(Start(m), 0, []);
    var m1 := DecodeRecord(d, Start(m), b1).st.m;
    assert DecodeNoinit(d, m, b1) == Ok(m1, []);
    FlagReceived(Start(m1), 1, []);
    assert ArraysMeet(d, m, b1, b2);
    ConcatenationMerges(d, m, b1, b2);
  }
}
