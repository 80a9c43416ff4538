// Base 128 varints as the Protocol Buffers encoding describes them, by arithmetic alone,
// and what the codecs of nanopb make of them.
module WireNumbers {
  import opened Wrappers
  import opened Bits
  import opened Varint
  import opened VarintAgreement
  import opened Integers

  // Groups of seven bits, lowest first; bytes of 128 and more are followed by others.
  function ReadNumber(b: seq<byte>): (r: Option<(nat, seq<byte>)>)
    ensures r.Some? ==> |r.value.1| < |b|
  {
    if b == [] then None
    else if b[0] < 128 then Some((b[0], b[1..]))
    else
      match ReadNumber(b[1..])
      case None => None
      case Some((high, rest)) => Some((b[0] - 128 + 128 * high, rest))
  }

  // pb_encode_varint writes such a number.
  lemma {:induction false} EncodedNumber(v: nat, rest: seq<byte>)
    ensures ReadNumber(EncodeVarint(v) + rest) == Some((v, rest))
  {
    EncodedHead(v, rest);
    if v >= 128 {
      EncodedNumber(v / 128, rest);
      var b := EncodeVarint(v) + rest;
      assert b[0] - 128 == v % 128;
    }
  }

  // pb_skip_varint skips one.
  lemma {:induction false} SkipsNumber(b: seq<byte>)
    ensures SkipVarint(b) == if ReadNumber(b).None? then Err else Ok((), ReadNumber(b).value.1)
  {
    if b != [] && b[0] >= 128 {
      SkipsNumber(b[1..]);
    }
  }

  // pb_encode_svarint maps 0, -1, 1, -2, 2 to 0, 1, 2, 3, 4, and so on.
  lemma ZigZagNumber(x: int)
    requires -0x8000_0000_0000_0000 <= x < 0x8000_0000_0000_0000
    ensures ZigZag(x) == if x >= 0 then 2 * x else -2 * x - 1
  {
    ZigZagValue(x);
  }

  // pb_enc_varint writes a negative number as its 64-bit two's complement.
  lemma SignedNumber(x: int)
    requires -0x8000_0000_0000_0000 <= x < 0x8000_0000_0000_0000
    ensures VarintPayload(x) == if x >= 0 then x else x + 0x1_0000_0000_0000_0000
  {
  }

  // ------------------------------------------------------ the 64-bit decoder

  // The last byte there can be: what does not fit is cut off.
  lemma LastRound64(result: uint64, c: byte)
    requires result < Shl(1, 63)
    ensures BitOr64(result, Shl(c % 128, 63) % 0x1_0000_0000_0000_0000)
         == (result + Shl(c % 128, 63)) % 0x1_0000_0000_0000_0000
  {
    Round64(result, c, 63);
    Cut64(c, 63);
    var r: uint64 := BitOr64(result, Shl(c % 128, 63) % 0x1_0000_0000_0000_0000);
    AddMod64(result, Shl(c % 128, 63));
  }

  lemma AddMod64(a: nat, b: nat)
    requires a + b % 0x1_0000_0000_0000_0000 < 0x1_0000_0000_0000_0000
    ensures (a + b) % 0x1_0000_0000_0000_0000 == a + b % 0x1_0000_0000_0000_0000
  {
    var q := b / 0x1_0000_0000_0000_0000;
    assert a + b == (a + b % 0x1_0000_0000_0000_0000) + q * 0x1_0000_0000_0000_0000;
  }

  lemma SmallByte(c: byte)
    requires c < 128
    ensures c % 128 == c
  {
  }

  lemma Last64(b: seq<byte>, result: uint64)
    requires b != [] && result < Shl(1, 63)
    ensures Varint64From(b, result, 63)
         == if b[0] < 128 then Ok((result + Shl(b[0], 63)) % 0x1_0000_0000_0000_0000, b[1..]) else Err
  {
    LastRound64(result, b[0]);
    if b[0] < 128 {
      SmallByte(b[0]);
    } else {
      assert Varint64From(b[1..], BitOr64(result, Shl(b[0] % 128, 63) % 0x1_0000_0000_0000_0000), 70) == Err;
    }
  }

  lemma Unfold64(b: seq<byte>, result: uint64, bitpos: nat, next: uint64)
    requires b != [] && bitpos < 64
    requires next == BitOr64(result, Shl(b[0] % 128, bitpos) % 0x1_0000_0000_0000_0000)
    ensures Varint64From(b, result, bitpos)
         == if b[0] >= 128 then Varint64From(b[1..], next, bitpos + 7) else Ok(next, b[1..])
  {
  }

  lemma Digit64(c: byte, result: uint64, k: nat)
    requires k < 9 && result < Shl(1, 7 * k)
    ensures
      var next := result + Shl(c % 128, 7 * k);
      && next < Shl(1, 7 * k + 7) && next < 0x1_0000_0000_0000_0000
      && next == BitOr64(result, Shl(c % 128, 7 * k) % 0x1_0000_0000_0000_0000)
  {
    Round64(result, c, 7 * k);
    assert Fitting64(c, 7 * k) == c % 128;
  }

  // One round, before the last byte there can be.
  lemma Step64(b: seq<byte>, result: uint64, k: nat)
    requires b != [] && k < 9 && result < Shl(1, 7 * k)
    ensures
      var next := result + Shl(b[0] % 128, 7 * k);
      && next < Shl(1, 7 * (k + 1)) && next < 0x1_0000_0000_0000_0000
      && Varint64From(b, result, 7 * k)
         == (if b[0] >= 128 then Varint64From(b[1..], next, 7 * (k + 1)) else Ok(next, b[1..]))
  {
    Digit64(b[0], result, k);
    Unfold64(b, result, 7 * k, result + Shl(b[0] % 128, 7 * k));
    assert 7 * k + 7 == 7 * (k + 1);
  }

  // The value of the rest of the number, on top of the bits read so far.
  function Total(b: seq<byte>, result: nat, k: nat): nat
    requires ReadNumber(b).Some?
  {
    result + Shl(ReadNumber(b).value.0, 7 * k)
  }

  lemma TotalStep(b: seq<byte>, result: nat, k: nat)
    requires b != [] && b[0] >= 128 && ReadNumber(b[1..]).Some?
    ensures Total(b, result, k) == Total(b[1..], result + Shl(b[0] % 128, 7 * k), k + 1)
  {
    NextDigit(b[0], ReadNumber(b[1..]).value.0, 7 * k);
  }

  // What the loop should return.
  function Expected64(b: seq<byte>, result: nat, k: nat): Parsed<uint64> {
    if ReadNumber(b).None? || |b| - |ReadNumber(b).value.1| > 10 - k then Err
    else Ok(Total(b, result, k) % 0x1_0000_0000_0000_0000, ReadNumber(b).value.1)
  }

  lemma ExpectedStep(b: seq<byte>, result: nat, k: nat)
    requires b != [] && b[0] >= 128
    ensures Expected64(b, result, k) == Expected64(b[1..], result + Shl(b[0] % 128, 7 * k), k + 1)
  {
    if ReadNumber(b[1..]).Some? {
      TotalStep(b, result, k);
    }
  }

  lemma ExpectedEnd(b: seq<byte>, result: nat, k: nat)
    requires b != [] && b[0] < 128 && k <= 9
    ensures Expected64(b, result, k) == Ok((result + Shl(b[0], 7 * k)) % 0x1_0000_0000_0000_0000, b[1..])
  {
  }

  lemma ExpectedLast(b: seq<byte>, result: nat)
    requires b != [] && b[0] >= 128
    ensures Expected64(b, result, 9) == Err
  {
    assert ReadNumber(b).Some? ==> |ReadNumber(b).value.1| < |b[1..]|;
  }

  lemma SmallTotal(result: nat, c: byte, k: nat)
    requires c < 128 && result + Shl(c % 128, 7 * k) < 0x1_0000_0000_0000_0000
    ensures (result + Shl(c, 7 * k)) % 0x1_0000_0000_0000_0000 == result + Shl(c % 128, 7 * k)
  {
    SmallByte(c);
  }

  lemma {:induction false} LoopReads64(b: seq<byte>, result: uint64, k: nat)
    requires k <= 9 && result < Shl(1, 7 * k)
    ensures Varint64From(b, result, 7 * k) == Expected64(b, result, k)
    decreases |b|
  {
    if b == [] {
    } else if b[0] < 128 {
      ExpectedEnd(b, result, k);
      if k == 9 {
        Last64(b, result);
      } else {
        Step64(b, result, k);
        SmallTotal(result, b[0], k);
      }
    } else if k == 9 {
      ExpectedLast(b, result);
      Last64(b, result);
    } else {
      Step64(b, result, k);
      ExpectedStep(b, result, k);
      LoopReads64(b[1..], result + Shl(b[0] % 128, 7 * k), k + 1);
    }
  }

  lemma NextDigit(c: byte, high: nat, bitpos: nat)
    requires c >= 128
    ensures Shl(c - 128 + 128 * high, bitpos) == Shl(c % 128, bitpos) + Shl(high, bitpos + 7)
  {
    assert c % 128 == c - 128;
    ShlAdd(c - 128, 128 * high, bitpos);
    ShlSeven(high, bitpos);
  }

  // pb_decode_varint accepts exactly the numbers of at most ten bytes, and gives their
  // value modulo 2^64.
  lemma Decodes64(b: seq<byte>)
    ensures DecodeVarint64(b).Ok? <==> ReadNumber(b).Some? && |b| - |ReadNumber(b).value.1| <= 10
    ensures DecodeVarint64(b).Ok? ==>
        && DecodeVarint64(b).rest == ReadNumber(b).value.1
        && DecodeVarint64(b).value == ReadNumber(b).value.0 % 0x1_0000_0000_0000_0000
  {
    LoopReads64(b, 0, 0);
    assert ReadNumber(b).Some? ==> Total(b, 0, 0) == ReadNumber(b).value.0;
  }

  // ------------------------------------------------------ the 32-bit decoder

  // Behind the value only zeros are left: however many come, they are accepted.
  lemma {:induction false} ZerosRead32(b: seq<byte>, result: uint32, bitpos: byte)
    requires ReadNumber(b).Some? && ReadNumber(b).value.0 == 0
    ensures Varint32From(b, result, bitpos) == Ok(result, ReadNumber(b).value.1)
    decreases |b|
  {
    var c := b[0];
    if c >= 128 {
      assert c == 128 && ReadNumber(b[1..]).value.0 == 0;
    }
    assert c % 128 == 0;
    ShlZero(bitpos);
    OrZero(result);
    if c >= 128 {
      ZerosRead32(b[1..], result, NextBitpos(bitpos));
    }
  }

  lemma {:induction false} ShlZero(n: nat)
    ensures Shl(0, n) == 0
  {
    if n > 0 {
      ShlZero(n - 1);
    }
  }

  lemma {:induction false} OrZero(a: nat)
    ensures BitOr(a, 0) == a
  {
    if a > 0 {
      OrZero(a / 2);
    }
  }

  // The lowest digit of a number, and the others.
  lemma NumberDigit(b: seq<byte>)
    requires ReadNumber(b).Some?
    ensures ReadNumber(b).value.0 % 128 == b[0] % 128
    ensures b[0] < 128 ==> ReadNumber(b).value.0 == b[0]
    ensures b[0] >= 128 ==> ReadNumber(b[1..]).Some? && ReadNumber(b).value.0 / 128 == ReadNumber(b[1..]).value.0
  {
  }

  lemma Digit32(n: nat, c: byte, result: uint32, k: nat)
    requires k <= 4 && result < Shl(1, 7 * k) && result + Shl(n, 7 * k) < 0x1_0000_0000
    requires n % 128 == c % 128
    ensures
      var digit := result + Shl(c % 128, 7 * k);
      && digit < Shl(1, 7 * (k + 1)) && digit < 0x1_0000_0000
      && digit == BitOr(result, Shl(c % 128, 7 * k) % 0x1_0000_0000)
    ensures n < 128 ==> result + Shl(c % 128, 7 * k) == result + Shl(n, 7 * k)
    ensures k == 4 ==> n < 16
  {
    Varint32Progress(n, result, k, result + Shl(n, 7 * k));
    OrDigit32(result, n, 7 * k);
  }

  lemma Step32(b: seq<byte>, result: uint32, k: nat)
    requires b != [] && ReadNumber(b).Some? && k <= 4 && result < Shl(1, 7 * k) && Total(b, result, k) < 0x1_0000_0000
    ensures
      var digit := result + Shl(b[0] % 128, 7 * k);
      && digit < Shl(1, 7 * (k + 1)) && digit < 0x1_0000_0000
      && (b[0] < 128 ==> digit == Total(b, result, k))
      && Varint32From(b, result, 7 * k)
         == (if b[0] >= 128 then Varint32From(b[1..], digit, 7 * k + 7) else Ok(digit, b[1..]))
  {
    NumberDigit(b);
    Digit32(ReadNumber(b).value.0, b[0], result, k);
    Varint32Round(b[0], b[1..], result, 7 * k, result + Shl(b[0] % 128, 7 * k));
    assert [b[0]] + b[1..] == b;
  }

  // Behind the fifth byte.
  lemma Behind32(b: seq<byte>, digit: uint32)
    requires ReadNumber(b).Some? && Total(b, digit, 5) < 0x1_0000_0000
    ensures Varint32From(b, digit, 35) == Ok(Total(b, digit, 5), ReadNumber(b).value.1)
  {
    NothingLeft(b, digit);
    ZerosRead32(b, digit, 35);
    ShlZero(35);
  }

  lemma {:induction false} LoopReads32(b: seq<byte>, result: uint32, k: nat)
    requires k <= 4 && result < Shl(1, 7 * k) && ReadNumber(b).Some? && Total(b, result, k) < 0x1_0000_0000
    ensures Varint32From(b, result, 7 * k) == Ok(Total(b, result, k), ReadNumber(b).value.1)
    decreases |b|
  {
    Step32(b, result, k);
    if b[0] >= 128 {
      var digit := result + Shl(b[0] % 128, 7 * k);
      TotalStep(b, result, k);
      if k < 4 {
        LoopReads32(b[1..], digit, k + 1);
      } else {
        Behind32(b[1..], digit);
      }
    }
  }

  lemma NothingLeft(b: seq<byte>, result: nat)
    requires ReadNumber(b).Some? && Total(b, result, 5) < 0x1_0000_0000
    ensures ReadNumber(b).value.0 == 0
  {
    PowersOfTwo();
    ShlBound(1, 32, 35);
    if ReadNumber(b).value.0 > 0 {
      ShlMonotone(1, ReadNumber(b).value.0, 35);
    }
  }

  // pb_decode_varint32 reads every number below 2^32, with any padding.
  lemma Decodes32(b: seq<byte>)
    requires ReadNumber(b).Some? && ReadNumber(b).value.0 < 0x1_0000_0000
    ensures DecodeVarint32(b) == Ok(ReadNumber(b).value.0, ReadNumber(b).value.1)
  {
    if b[0] >= 128 {
      FirstDigit(b);
      LoopReads32(b[1..], b[0] - 128, 1);
    }
  }

  lemma FirstDigit(b: seq<byte>)
    requires ReadNumber(b).Some? && b[0] >= 128
    ensures b[0] % 128 == b[0] - 128 < Shl(1, 7)
    ensures Total(b[1..], b[0] - 128, 1) == ReadNumber(b).value.0
  {
    PowersOfTwo();
    ShlSeven(ReadNumber(b[1..]).value.0, 0);
  }
}
