// What pb_decode.c makes of a byte sequence, as functions of the bytes.  `Err` is
// the error return; what the struct then holds is not described.
module DecodeSpec {
  import opened Wrappers
  import opened Bits
  import opened Varint
  import opened Descriptor
  import opened Integers

  // ------------------------------------------------------------ tags, skipping

  datatype TagResult =
    | Tag(tag: nat, wireType: nat, rest: seq<byte>)
    | Stop(rest: seq<byte>)               // a zero tag ends the message
    | BadTag

  // pb_decode_tag, on a stream that is not at its end
  function DecodeTag(b: seq<byte>): (r: TagResult)
    ensures !r.BadTag? ==> |r.rest| < |b|
  {
    match DecodeVarint32(b)
    case Err => BadTag
    case Ok(v, rest) => if v == 0 then Stop(rest) else Tag(v / 8, v % 8, rest)
  }

  // pb_skip_field
  function SkipField(wireType: nat, b: seq<byte>): (r: Parsed<()>)
    ensures r.Ok? ==> |r.rest| <= |b|
  {
    if wireType == WT_VARINT then SkipVarint(b)
    else if wireType == WT_64BIT then Skip(b, 8)
    else if wireType == WT_STRING then
      match ReadDelimited(b)
      case Err => Err
      case Ok(_, rest) => Ok((), rest)
    else if wireType == WT_32BIT then Skip(b, 4)
    else Err
  }

  function Skip(b: seq<byte>, n: nat): (r: Parsed<()>) {
    match Read(b, n)
    case Err => Err
    case Ok(_, rest) => Ok((), rest)
  }

  // ------------------------------------------------------------ single values

  function FromLittleEndian(b: seq<byte>): nat {
    if b == [] then 0 else b[0] + 256 * FromLittleEndian(b[1..])
  }

  // A C string ends at its first zero byte.
  function UpToNul(b: seq<byte>): seq<byte> {
    if b == [] || b[0] == 0 then [] else [b[0]] + UpToNul(b[1..])
  }

  function WithRest(v: Option<int>, rest: seq<byte>): Parsed<Value> {
    if v.None? then Err else Ok(VInt(v.value), rest)
  }

  // The field decoders for everything but submessages.
  function DecodeScalar(f: Field, b: seq<byte>): (r: Parsed<Value>)
    ensures r.Ok? ==> |r.rest| < |b|
  {
    match f.ltype
    case BOOL =>
      (match DecodeVarint32(b)
       case Err => Err
       case Ok(v, rest) => Ok(VBool(v != 0), rest))
    case VARINT =>
      (match DecodeVarint64(b)
       case Err => Err
       case Ok(v, rest) => WithRest(NarrowSigned(v, f.dataSize), rest))
    case UVARINT =>
      (match DecodeVarint64(b)
       case Err => Err
       case Ok(v, rest) => WithRest(NarrowUnsigned(v, f.dataSize), rest))
    case SVARINT =>
      (match DecodeVarint64(b)
       case Err => Err
       case Ok(v, rest) => WithRest(NarrowZigZag(v, f.dataSize), rest))
    case FIXED32 =>
      (match Read(b, 4)
       case Err => Err
       case Ok(bytes, rest) => Ok(VInt(FromLittleEndian(bytes)), rest))
    case FIXED64 =>
      (match Read(b, 8)
       case Err => Err
       case Ok(bytes, rest) => Ok(VInt(FromLittleEndian(bytes)), rest))
    case BYTES =>
      (match DecodeVarint32(b)
       case Err => Err
       case Ok(size, rest) =>
         if size > PB_SIZE_MAX || size + BYTES_HEADER > f.dataSize then Err
         else match Read(rest, size)
           case Err => Err
           case Ok(bytes, rest') => Ok(VBytes(bytes), rest'))
    case STRING =>
      (match DecodeVarint32(b)
       case Err => Err
       case Ok(size, rest) =>
         if size + 1 > f.dataSize then Err
         else match Read(rest, size)
           case Err => Err
           case Ok(bytes, rest') => Ok(VBytes(UpToNul(bytes)), rest'))
    case FIXED_LENGTH_BYTES =>
      (match DecodeVarint32(b)
       case Err => Err
       case Ok(size, rest) =>
         if size > PB_SIZE_MAX then Err
         else if size == 0 then Ok(VBytes(Zeros(f.dataSize)), rest)
         else if size != f.dataSize then Err
         else match Read(rest, size)
           case Err => Err
           case Ok(bytes, rest') => Ok(VBytes(bytes), rest'))
    case SUBMESSAGE(_) => Err
  }

  // The struct a value holds, for merging into it.
  function AsStruct(v: Value): Struct {
    if v.VMsg? then v.m else map[]
  }

  // Any field decoder.  Entries of a repeated submessage start from the defaults,
  // other submessages are merged into what the struct holds.
  ghost function DecodeValue(f: Field, current: Value, b: seq<byte>): (r: Parsed<Value>)
    ensures r.Ok? ==> |r.rest| < |b|
    decreases |b|, 0
  {
    match f.ltype
    case SUBMESSAGE(fields) =>
      (match ReadDelimited(b)
       case Err => Err
       case Ok(body, rest) =>
         var start := if f.htype.REPEATED? then Defaults(fields) else AsStruct(current);
         match DecodeNoinit(fields, start, body)
         case Err => Err
         case Ok(m, _) => Ok(VMsg(m), rest))
    case _ => DecodeScalar(f, b)
  }

  // ------------------------------------------------------------ single fields

  // Entry `c` of an array is replaced, or added behind the known ones.
  function Put(items: seq<Value>, c: nat, v: Value): seq<Value> {
    if c < |items| then items[c := v] else items + [v]
  }

  // The entries of an array and the number of entries received so far.
  datatype ArrayState = ArrayState(items: seq<Value>, count: nat)

  // The loop over a packed array.  It has to use up its bytes before the array
  // is full.
  function DecodePacked(f: Field, a: ArrayState, b: seq<byte>): Option<ArrayState>
    decreases |b|
  {
    if b == [] then Some(a)
    else if a.count >= f.arraySize then None
    else match DecodeScalar(f, b)
      case Err => None
      case Ok(v, rest) => DecodePacked(f, ArrayState(Put(a.items, a.count, v), a.count + 1), rest)
  }

  lemma PackedNext(f: Field, a: ArrayState, b: seq<byte>, r: Parsed<Value>)
    requires b != [] && a.count < f.arraySize && DecodeScalar(f, b) == r
    ensures r.Ok? ==>
        DecodePacked(f, a, b) == DecodePacked(f, ArrayState(Put(a.items, a.count, r.value), a.count + 1), r.rest)
    ensures r.Err? ==> DecodePacked(f, a, b).None?
  {
  }

  lemma PackedEnd(f: Field, a: ArrayState, b: seq<byte>)
    requires b == [] || a.count >= f.arraySize
    ensures DecodePacked(f, a, b) == if b == [] then Some(a) else None
  {
  }

  // The array cases of decode_static_field.
  ghost function DecodeEntry(f: Field, a: ArrayState, wireType: nat, b: seq<byte>): (r: Parsed<ArrayState>)
    ensures r.Ok? ==> |r.rest| < |b|
    decreases |b|, 1
  {
    if wireType == WT_STRING && Packable(f.ltype) then
      match ReadDelimited(b)
      case Err => Err
      case Ok(body, rest) =>
        var a' := DecodePacked(f, a, body);
        if a'.None? then Err else Ok(a'.value, rest)
    else if a.count >= f.arraySize then
      Err
    else
      match DecodeValue(f, ZeroValue(f), b)
      case Err => Err
      case Ok(v, rest) => Ok(ArrayState(Put(a.items, a.count, v), a.count + 1), rest)
  }

  // decode_static_field for everything but arrays.
  ghost function DecodeSingle(f: Field, slot: Slot, b: seq<byte>): (r: Parsed<Slot>)
    ensures r.Ok? ==> |r.rest| < |b|
    decreases |b|, 1
  {
    match f.htype
    case REQUIRED =>
      if !slot.Single? then Err else
      (match DecodeValue(f, slot.v, b)
       case Err => Err
       case Ok(v, rest) => Ok(Single(v), rest))
    case OPTIONAL =>
      if HasFlag(f) then
        if !slot.Opt? then Err else
        match DecodeValue(f, slot.content, b)
        case Err => Err
        case Ok(v, rest) => Ok(Opt(true, v), rest)
      else
        if !slot.Single? then Err else
        (match DecodeValue(f, slot.v, b)
         case Err => Err
         case Ok(v, rest) => Ok(Single(v), rest))
    case ONEOF =>
      (match DecodeValue(f, DefaultValue(f), b)
       case Err => Err
       case Ok(v, rest) => Ok(Union(f.tag, v), rest))
    case REPEATED => Err
  }

  // ------------------------------------------------------------ whole messages

  // The state of pb_decode_noinit's loop: the struct, the required fields seen,
  // and the fixed count field being received with its number of entries.
  datatype LoopState = LoopState(m: Struct, seen: set<nat>, fixedField: Option<nat>, fixedCount: nat)

  function Start(m: Struct): LoopState {
    LoopState(m, {}, None, 0)
  }

  // The last fixed count field received, if any, is complete.
  predicate FixedComplete(d: seq<Field>, st: LoopState) {
    st.fixedField.Some? ==> st.fixedField.value < |d| && st.fixedCount == d[st.fixedField.value].arraySize
  }

  datatype Step =
    | Next(st: LoopState, rest: seq<byte>)
    | Halt(rest: seq<byte>)
    | Fail

  // A record whose field is in the table, behind its tag.
  ghost function DecodeField(d: seq<Field>, st: LoopState, i: nat, wireType: nat, b: seq<byte>): (r: Step)
    requires i < |d|
    ensures r.Next? ==> |r.rest| < |b|
    ensures !r.Halt?
    decreases |b|, 2
  {
    var f := d[i];
    if f.member !in st.m then
      Fail
    else if f.htype.REPEATED? then
      if !st.m[f.member].Arr? then
        Fail
      else if FixedCount(f) then
        if st.fixedField != Some(i) && !FixedComplete(d, st) then
          Fail
        else
          var count := if st.fixedField == Some(i) then st.fixedCount else 0;
          match DecodeEntry(f, ArrayState(st.m[f.member].items, count), wireType, b)
          case Err => Fail
          case Ok(a, rest) =>
            Next(st.(m := st.m[f.member := Arr(a.items)], fixedField := Some(i), fixedCount := a.count), rest)
      else
        match DecodeEntry(f, ArrayState(st.m[f.member].items, |st.m[f.member].items|), wireType, b)
        case Err => Fail
        case Ok(a, rest) => Next(st.(m := st.m[f.member := Arr(a.items)]), rest)
    else
      match DecodeSingle(f, st.m[f.member], b)
      case Err => Fail
      case Ok(slot, rest) =>
        Next(st.(m := st.m[f.member := slot],
                 seen := if f.htype.REQUIRED? then st.seen + {i} else st.seen), rest)
  }

  // One round of the loop in pb_decode_noinit, on a stream that is not at its end.
  // A record with field number 0 is unknown, except that an empty table takes its
  // own terminator for a boolean field of that number.
  ghost function DecodeRecord(d: seq<Field>, st: LoopState, b: seq<byte>): (r: Step)
    ensures !r.Fail? ==> |r.rest| < |b|
    decreases |b|, 1
  {
    match DecodeTag(b)
    case BadTag => Fail
    case Stop(rest) => Halt(rest)
    case Tag(tag, wireType, rest) =>
      match FindTag(d, tag)
      case Some(i) => DecodeField(d, st, i, wireType, rest)
      case None =>
        if d == [] && tag == 0 then
          match DecodeVarint32(rest)
          case Err => Fail
          case Ok(_, rest') => Next(st, rest')
        else
          match SkipField(wireType, rest)
          case Err => Fail
          case Ok(_, rest') => Next(st, rest')
  }

  // How the loop ends: out of bytes, at a zero tag, or with an error.
  datatype LoopEnd =
    | Done(st: LoopState)
    | Stopped(st: LoopState, rest: seq<byte>)
    | Failed

  ghost function DecodeLoop(d: seq<Field>, st: LoopState, b: seq<byte>): (r: LoopEnd)
    ensures r.Stopped? ==> |r.rest| < |b|
    decreases |b|, 2
  {
    if b == [] then Done(st) else
    match DecodeRecord(d, st, b)
    case Fail => Failed
    case Halt(rest) => Stopped(st, rest)
    case Next(st', rest) => DecodeLoop(d, st', rest)
  }

  // Number of required fields before the i-th entry.
  function RequiredBefore(d: seq<Field>, i: nat): nat
    requires i <= |d|
  {
    if i == 0 then 0 else RequiredBefore(d, i - 1) + (if d[i - 1].htype.REQUIRED? then 1 else 0)
  }

  // Every required field was seen, as far as they are tracked.
  predicate RequiredSeen(d: seq<Field>, seen: set<nat>) {
    forall i :: 0 <= i < |d| && d[i].htype.REQUIRED? && RequiredBefore(d, i) < MAX_REQUIRED_FIELDS ==> i in seen
  }

  // The checks behind the loop.
  function Finish(d: seq<Field>, st: LoopState, rest: seq<byte>): Parsed<Struct> {
    if FixedComplete(d, st) && RequiredSeen(d, st.seen) then Ok(st.m, rest) else Err
  }

  // pb_decode_noinit
  ghost function DecodeNoinit(d: seq<Field>, m: Struct, b: seq<byte>): (r: Parsed<Struct>)
    ensures r.Ok? ==> |r.rest| <= |b|
    decreases |b|, 3
  {
    match DecodeLoop(d, Start(m), b)
    case Failed => Err
    case Done(st) => Finish(d, st, [])
    case Stopped(st, rest) => Finish(d, st, rest)
  }

  // pb_decode
  ghost function Decode(d: seq<Field>, b: seq<byte>): Parsed<Struct> {
    DecodeNoinit(d, Defaults(d), b)
  }
}
