// The base-128 varint codecs of pb_encode.c and pb_decode.c, as functions on
// byte sequences, and the integer conversions built on them.
module Varint {
  import opened Bits
  import opened Wrappers

  // The outcome of reading a value from the front of a byte sequence.
  datatype Parsed<+T> = Ok(value: T, rest: seq<byte>) | Err

  // pb_read of `n` bytes.
  function Read(b: seq<byte>, n: nat): (r: Parsed<seq<byte>>)
  {
    if |b| < n then Err else Ok(b[..n], b[n..])
  }

  function EncodeVarint(v: nat): (s: seq<byte>)
    ensures |s| > 0
  {
    if v < 128 then [v] else [v % 128 + 128] + EncodeVarint(v / 128)
  }

  // The loop of pb_decode_varint, from the point where `result` holds the bits
  // below `bitpos`.
  function Varint64From(b: seq<byte>, result: uint64, bitpos: nat): (r: Parsed<uint64>)
    ensures r.Ok? ==> |r.rest| < |b|
  {
    if bitpos >= 64 || b == [] then
      Err
    else
      var result' := BitOr64(result, Shl(b[0] % 128, bitpos) % 0x1_0000_0000_0000_0000);
      if b[0] >= 128 then Varint64From(b[1..], result', bitpos + 7) else Ok(result', b[1..])
  }

  function DecodeVarint64(b: seq<byte>): (r: Parsed<uint64>)
    ensures r.Ok? ==> |r.rest| < |b|
  {
    Varint64From(b, 0, 0)
  }

  // What the multibyte loop of pb_decode_varint32_eof does with one byte.  Beyond
  // bit 32 only padding is accepted: zeros, or the ones of a sign extension.
  function AbsorbByte(c: byte, result: uint32, bitpos: nat): Option<uint32> {
    if bitpos >= 32 then
      var signExtension := if bitpos < 63 then 0xFF else 0x01;
      if c % 128 != 0 && (result < TWO_TO_31 || c != signExtension) then None else Some(result)
    else
      Some(BitOr32(result, Shl(c % 128, bitpos) % 0x1_0000_0000))
  }

  function NextBitpos(bitpos: byte): byte {
    if bitpos + 7 < 256 then bitpos + 7 else bitpos + 7 - 256
  }

  // The loop, from the point where `result` holds the bits below `bitpos`.  The
  // bit position is an 8-bit counter and wraps around on a long run of
  // continuation bytes.  When it ends at 35 only four bits of the last byte fit.
  function Varint32From(b: seq<byte>, result: uint32, bitpos: byte): (r: Parsed<uint32>)
    ensures r.Ok? ==> |r.rest| < |b|
  {
    if b == [] then
      Err
    else
      match AbsorbByte(b[0], result, bitpos)
      case None => Err
      case Some(result') =>
        if b[0] >= 128 then Varint32From(b[1..], result', NextBitpos(bitpos))
        else if NextBitpos(bitpos) == 35 && b[0] >= 16 then Err
        else Ok(result', b[1..])
  }

  // pb_decode_varint32
  function DecodeVarint32(b: seq<byte>): (r: Parsed<uint32>)
    ensures r.Ok? ==> |r.rest| < |b|
  {
    if b == [] then Err
    else if b[0] < 128 then Ok(b[0], b[1..])
    else Varint32From(b[1..], b[0] % 128, 7)
  }

  // pb_skip_varint
  function SkipVarint(b: seq<byte>): (r: Parsed<()>)
    ensures r.Ok? ==> |r.rest| < |b|
  {
    if b == [] then Err
    else if b[0] >= 128 then SkipVarint(b[1..])
    else Ok((), b[1..])
  }

  // A varint length followed by that many bytes: pb_make_string_substream.
  function ReadDelimited(b: seq<byte>): (r: Parsed<seq<byte>>)
    ensures r.Ok? ==> |r.value| + |r.rest| < |b|
  {
    match DecodeVarint32(b)
    case Err => Err
    case Ok(size, rest) => Read(rest, size)
  }

  // ---------------------------------------------------------------- round trips

  lemma {:induction false} EncodeVarintLength(v: nat, k: nat)
    requires k > 0 && v < Shl(1, 7 * k)
    ensures |EncodeVarint(v)| <= k
  {
    if v >= 128 {
      ShlSeven(1, 7 * (k - 1));
      ShlShl(1, 7 * (k - 1), 7);
      ShlSeven(Shl(1, 7 * (k - 1)), 0);
      PowersOfTwo();
      EncodeVarintLength(v / 128, k - 1);
    }
  }

  // Ten bytes, the size of the encoder's buffer, are enough for every uint64.
  lemma EncodeVarintFitsBuffer(v: nat)
    requires v < TWO_TO_64
    ensures |EncodeVarint(v)| <= 10
  {
    PowersOfTwo();
    ShlBound(1, 64, 70);
    EncodeVarintLength(v, 10);
  }

  // Splitting off the lowest digit of a shifted value.
  lemma ShlDigit(v: nat, bitpos: nat)
    ensures Shl(v % 128, bitpos) + Shl(v / 128, bitpos + 7) == Shl(v, bitpos)
  {
    ShlSeven(v / 128, bitpos);
    ShlAdd(v % 128, 128 * (v / 128), bitpos);
    assert v % 128 + 128 * (v / 128) == v;
  }

  // Adding a digit above the bits of `result` keeps it below the next digit.
  lemma DigitBound(result: nat, digit: nat, bitpos: nat)
    requires result < Shl(1, bitpos) && digit < 128
    ensures result + Shl(digit, bitpos) < Shl(1, bitpos + 7)
  {
    ShlSeven(1, bitpos);
    ShlMonotone(digit, 127, bitpos);
    ShlAdd(127, 1, bitpos);
  }

  lemma SmallMod(x: nat)
    ensures x < TWO_TO_64 ==> x % 0x1_0000_0000_0000_0000 == x
    ensures x < TWO_TO_32 ==> x % 0x1_0000_0000 == x
  {
  }

  // The or of one digit, cut to the width of the result, adds that digit.
  lemma OrDigit64(result: nat, v: nat, bitpos: nat)
    requires result < Shl(1, bitpos) && result + Shl(v, bitpos) < TWO_TO_64
    ensures BitOr(result, Shl(v % 128, bitpos) % 0x1_0000_0000_0000_0000) == result + Shl(v % 128, bitpos)
  {
    ShlMonotone(v % 128, v, bitpos);
    SmallMod(Shl(v % 128, bitpos));
    BitOrDisjoint(result, v % 128, bitpos);
  }

  lemma OrDigit32(result: nat, v: nat, bitpos: nat)
    requires result < Shl(1, bitpos) && result + Shl(v, bitpos) < TWO_TO_32
    ensures BitOr(result, Shl(v % 128, bitpos) % 0x1_0000_0000) == result + Shl(v % 128, bitpos)
  {
    ShlMonotone(v % 128, v, bitpos);
    SmallMod(Shl(v % 128, bitpos));
    BitOrDisjoint(result, v % 128, bitpos);
  }

  lemma ModShifted(x: nat)
    ensures (x % 128 + 128) % 128 == x % 128
  {
  }

  // The first byte of an encoded number, and what follows it.
  lemma EncodedHead(v: nat, rest: seq<byte>)
    ensures var b := EncodeVarint(v) + rest;
      b[0] % 128 == v % 128 && (b[0] < 128 <==> v < 128) &&
      b[1..] == if v < 128 then rest else EncodeVarint(v / 128) + rest
  {
    var b := EncodeVarint(v) + rest;
    if v < 128 {
      assert b == [v] + rest;
    } else {
      assert b == [v % 128 + 128] + (EncodeVarint(v / 128) + rest);
      ModShifted(v);
    }
  }

  // A round of the 64-bit loop on an encoded number.
  lemma Varint64Digit(v: nat, rest: seq<byte>, result: uint64, bitpos: nat, digit: uint64)
    requires bitpos < 64
    requires result < Shl(1, bitpos) && result + Shl(v, bitpos) < TWO_TO_64
    requires digit == result + Shl(v % 128, bitpos)
    ensures Varint64From(EncodeVarint(v) + rest, result, bitpos) ==
      if v < 128 then Ok(digit, rest) else Varint64From(EncodeVarint(v / 128) + rest, digit, bitpos + 7)
  {
    OrDigit64(result, v, bitpos);
    EncodedHead(v, rest);
  }

  // Adding up the digits: what a round leaves for the next one.
  lemma Varint64Progress(v: nat, result: nat, bitpos: nat, total: nat)
    requires result < Shl(1, bitpos)
    requires total == result + Shl(v, bitpos) < TWO_TO_64
    ensures result + Shl(v % 128, bitpos) < Shl(1, bitpos + 7)
    ensures total == result + Shl(v % 128, bitpos) + Shl(v / 128, bitpos + 7)
    ensures v >= 128 ==> bitpos + 7 < 64
  {
    ShlDigit(v, bitpos);
    DigitBound(result, v % 128, bitpos);
    if v >= 128 {
      ShiftFits(v / 128, bitpos + 7);
    }
  }

  lemma {:induction false} Varint64FromEncoded(v: nat, rest: seq<byte>, result: uint64, bitpos: nat, total: uint64)
    requires result < Shl(1, bitpos) && bitpos < 64
    requires total == result + Shl(v, bitpos)
    ensures Varint64From(EncodeVarint(v) + rest, result, bitpos) == Ok(total, rest)
    decreases v
  {
    Varint64Progress(v, result, bitpos, total);
    var digit := result + Shl(v % 128, bitpos);
    Varint64Digit(v, rest, result, bitpos, digit);
    if v >= 128 {
      Varint64FromEncoded(v / 128, rest, digit, bitpos + 7, total);
    }
  }

  // Decoding an encoded number gives it back and stops right behind it.
  lemma Varint64RoundTrip(v: nat, rest: seq<byte>)
    requires v < TWO_TO_64
    ensures DecodeVarint64(EncodeVarint(v) + rest) == Ok(v, rest)
  {
    Varint64FromEncoded(v, rest, 0, 0, v);
  }

  // At bit 28 only four payload bits fit in 32.
  lemma TopDigit(v: nat)
    requires Shl(v, 28) < TWO_TO_32
    ensures v < 16
  {
    PowersOfTwo();
    ShlShl(1, 4, 28);
    assert Shl(1, 4) == 16;
    if v >= 16 {
      ShlMonotone(16, v, 28);
    }
  }

  // A round of the 32-bit loop.
  lemma Varint32Round(c: byte, tail: seq<byte>, result: uint32, bitpos: byte, digit: uint32)
    requires bitpos <= 28 && (bitpos < 28 ==> bitpos + 7 <= 28)
    requires bitpos == 28 ==> c >= 128 || c < 16
    requires digit == BitOr(result, Shl(c % 128, bitpos) % 0x1_0000_0000)
    ensures Varint32From([c] + tail, result, bitpos) ==
      if c < 128 then Ok(digit, tail) else Varint32From(tail, digit, bitpos + 7)
  {
    var b := [c] + tail;
    assert b[1..] == tail;
  }

  // A round of the 32-bit loop on an encoded number.
  lemma Varint32Digit(v: nat, rest: seq<byte>, result: uint32, bitpos: byte, digit: uint32)
    requires bitpos <= 28 && (bitpos < 28 ==> bitpos + 7 <= 28)
    requires bitpos == 28 && v < 128 ==> v < 16
    requires result < Shl(1, bitpos) && result + Shl(v, bitpos) < TWO_TO_32
    requires digit == result + Shl(v % 128, bitpos)
    ensures Varint32From(EncodeVarint(v) + rest, result, bitpos) ==
      if v < 128 then Ok(digit, rest) else Varint32From(EncodeVarint(v / 128) + rest, digit, bitpos + 7)
  {
    EncodedHead(v, rest);
    var b := EncodeVarint(v) + rest;
    var c, tail := b[0], b[1..];
    assert digit == BitOr(result, Shl(c % 128, bitpos) % 0x1_0000_0000) by {
      OrDigit32(result, v, bitpos);
    }
    assert bitpos == 28 ==> c >= 128 || c < 16;
    assert [c] + tail == b;
    Varint32Round(c, tail, result, bitpos, digit);
  }

  // Adding up the digits: what a round leaves for the next one.
  lemma Varint32Progress(v: nat, result: nat, k: nat, total: nat)
    requires result < Shl(1, 7 * k) && k <= 4
    requires total == result + Shl(v, 7 * k) < TWO_TO_32
    ensures k == 4 ==> v < 16
    ensures v < 128 ==> result + Shl(v % 128, 7 * k) == total
    ensures result + Shl(v % 128, 7 * k) < Shl(1, 7 * (k + 1))
    ensures total == result + Shl(v % 128, 7 * k) + Shl(v / 128, 7 * (k + 1))
    ensures total == result + Shl(v % 128, 7 * k) + Shl(v / 128, 7 * k + 7)
  {
    if k == 4 {
      TopDigit(v);
    }
    ShlDigit(v, 7 * k);
    DigitBound(result, v % 128, 7 * k);
    if v < 128 {
      ShlAdd(0, 0, 7 * k + 7);
    }
  }

  lemma {:induction false} Varint32FromEncoded(v: nat, rest: seq<byte>, result: uint32, k: nat, total: uint32)
    requires result < Shl(1, 7 * k) && k <= 4
    requires total == result + Shl(v, 7 * k)
    ensures Varint32From(EncodeVarint(v) + rest, result, 7 * k) == Ok(total, rest)
    decreases v
  {
    Varint32Progress(v, result, k, total);
    var digit := result + Shl(v % 128, 7 * k);
    Varint32Digit(v, rest, result, 7 * k, digit);
    if v >= 128 {
      Varint32FromEncoded(v / 128, rest, digit, k + 1, total);
    }
  }

  lemma Varint32RoundTrip(v: nat, rest: seq<byte>)
    requires v < TWO_TO_32
    ensures DecodeVarint32(EncodeVarint(v) + rest) == Ok(v, rest)
  {
    EncodedHead(v, rest);
    if v >= 128 {
      ShlDigit(v, 0);
      assert v % 128 < Shl(1, 7) by {
        PowersOfTwo();
      }
      Varint32FromEncoded(v / 128, rest, v % 128, 1, v);
    }
  }

  lemma {:induction false} SkipVarintEncoded(v: nat, rest: seq<byte>)
    ensures SkipVarint(EncodeVarint(v) + rest) == Ok((), rest)
  {
    EncodedHead(v, rest);
    if v >= 128 {
      SkipVarintEncoded(v / 128, rest);
    }
  }

  lemma DelimitedBehind(head: seq<byte>, body: seq<byte>, rest: seq<byte>)
    requires DecodeVarint32(head + (body + rest)) == Ok(|body|, body + rest)
    ensures ReadDelimited(head + body + rest) == Ok(body, rest)
  {
    assert head + body + rest == head + (body + rest);
    assert (body + rest)[..|body|] == body && (body + rest)[|body|..] == rest;
  }

  lemma DelimitedRoundTrip(body: seq<byte>, rest: seq<byte>)
    requires |body| < TWO_TO_32
    ensures ReadDelimited(EncodeVarint(|body|) + body + rest) == Ok(body, rest)
  {
    Varint32RoundTrip(|body|, body + rest);
    DelimitedBehind(EncodeVarint(|body|), body, rest);
  }
}
