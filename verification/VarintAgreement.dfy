// The 32-bit varint decoder against the 64-bit one.
module VarintAgreement {
  import opened Wrappers
  import opened Bits
  import opened Varint

  lemma {:induction false} ShlTimes(v: nat, n: nat)
    ensures Shl(v, n) == v * Shl(1, n)
  {
    if n > 0 {
      ShlTimes(v, n - 1);
    }
  }

  lemma TopBit(p: nat)
    ensures Shl(p, 63) % 0x1_0000_0000_0000_0000 == Shl(p % 2, 63)
  {
    assert Shl(1, 63) == 0x8000_0000_0000_0000 by {
      PowersOfTwo();
      ShlShl(1, 63, 1);
    }
    ShlTimes(p, 63);
    ShlTimes(p % 2, 63);
    TopBitArithmetic(p);
  }

  lemma TopBitArithmetic(p: nat)
    ensures p * 0x8000_0000_0000_0000 % 0x1_0000_0000_0000_0000 == p % 2 * 0x8000_0000_0000_0000
  {
  }

  lemma TopNibble(p: nat)
    ensures Shl(p, 28) % 0x1_0000_0000 == Shl(p % 16, 28)
  {
    PowersOfTwo();
    ShlTimes(p, 28);
    ShlTimes(p % 16, 28);
    TopNibbleArithmetic(p);
  }

  lemma TopNibbleArithmetic(p: nat)
    ensures p * 0x1000_0000 % 0x1_0000_0000 == p % 16 * 0x1000_0000
  {
    assert p * 0x1000_0000 == p / 16 * 0x1_0000_0000 + p % 16 * 0x1000_0000;
  }

  // The bits of a digit that fit in 64 bits, and in 32.
  function Fitting64(c: byte, bitpos: nat): nat {
    if bitpos == 63 then c % 128 % 2 else c % 128
  }

  function Fitting32(c: byte, bitpos: nat): nat {
    if bitpos == 28 then c % 128 % 16 else c % 128
  }

  lemma Cut64(c: byte, bitpos: nat)
    requires bitpos < 64 && bitpos % 7 == 0
    ensures Shl(c % 128, bitpos) % 0x1_0000_0000_0000_0000 == Shl(Fitting64(c, bitpos), bitpos)
  {
    if bitpos == 63 {
      TopBit(c % 128);
    } else {
      LowDigit(c, bitpos, 64);
    }
  }

  lemma Cut32(c: byte, bitpos: nat)
    requires bitpos < 32 && bitpos % 7 == 0
    ensures Shl(c % 128, bitpos) % 0x1_0000_0000 == Shl(Fitting32(c, bitpos), bitpos)
  {
    if bitpos == 28 {
      TopNibble(c % 128);
    } else {
      LowDigit(c, bitpos, 32);
    }
  }

  lemma LowDigit(c: byte, bitpos: nat, n: nat)
    requires bitpos + 7 <= n && (n == 32 || n == 64)
    ensures Shl(c % 128, bitpos) < if n == 32 then 0x1_0000_0000 else 0x1_0000_0000_0000_0000
  {
    PowersOfTwo();
    DigitBound(0, c % 128, bitpos);
    ShlBound(1, bitpos + 7, n);
  }

  // A round of the 64-bit loop adds its digit, as far as it fits.
  lemma Round64(result: uint64, c: byte, bitpos: nat)
    requires bitpos < 64 && bitpos % 7 == 0 && result < Shl(1, bitpos)
    ensures
      var digit := Shl(c % 128, bitpos) % 0x1_0000_0000_0000_0000;
      BitOr64(result, digit) == result + Shl(Fitting64(c, bitpos), bitpos) < Shl(1, bitpos + 7)
  {
    Cut64(c, bitpos);
    BitOrDisjoint(result, Fitting64(c, bitpos), bitpos);
    DigitBound(result, Fitting64(c, bitpos), bitpos);
  }

  lemma Round32(result: uint32, c: byte, bitpos: nat)
    requires bitpos < 32 && bitpos % 7 == 0 && result < Shl(1, bitpos)
    ensures
      var digit := Shl(c % 128, bitpos) % 0x1_0000_0000;
      BitOr32(result, digit) == result + Shl(Fitting32(c, bitpos), bitpos)
  {
    Cut32(c, bitpos);
    BitOrDisjoint(result, Fitting32(c, bitpos), bitpos);
  }

  // Digits from bit 32 on do not change the value modulo 2^32.
  lemma HighDigit(a: nat, p: nat, bitpos: nat)
    requires 32 <= bitpos
    ensures (a + Shl(p, bitpos)) % 0x1_0000_0000 == a % 0x1_0000_0000
  {
    PowersOfTwo();
    ShlShl(p, bitpos - 32, 32);
    ShlTimes(Shl(p, bitpos - 32), 32);
    MultipleMod(a, Shl(p, bitpos - 32));
  }

  lemma MultipleMod(a: nat, y: nat)
    ensures (a + y * 0x1_0000_0000) % 0x1_0000_0000 == a % 0x1_0000_0000
  {
  }

  // Below bit 32 both loops add the same bits, modulo 2^32.
  lemma SameDigit(result: uint32, c: byte, bitpos: nat)
    requires bitpos < 32 && bitpos % 7 == 0 && result < Shl(1, bitpos)
    requires result + Shl(Fitting32(c, bitpos), bitpos) < TWO_TO_32
    ensures (result + Shl(c % 128, bitpos)) % 0x1_0000_0000 == result + Shl(Fitting32(c, bitpos), bitpos)
  {
    Cut32(c, bitpos);
    AddMod(result, Shl(c % 128, bitpos));
  }

  lemma AddMod(a: nat, x: nat)
    requires a + x % 0x1_0000_0000 < 0x1_0000_0000
    ensures (a + x) % 0x1_0000_0000 == a + x % 0x1_0000_0000
  {
  }

  // One byte keeps the two results equal modulo 2^32.
  lemma LowRoundAgrees(c: byte, result: uint32, bitpos: nat)
    requires bitpos < 32 && bitpos % 7 == 0 && result < Shl(1, bitpos)
    ensures AbsorbByte(c, result, bitpos) == Some((result + Shl(c % 128, bitpos)) % 0x1_0000_0000)
  {
    Round32(result, c, bitpos);
    var next := BitOr32(result, Shl(c % 128, bitpos) % 0x1_0000_0000);
    SameDigit(result, c, bitpos);
    assert AbsorbByte(c, result, bitpos) == Some(next);
  }

  lemma RoundAgrees(c: byte, result32: uint32, result64: uint64, bitpos: nat, next64: uint64)
    requires bitpos < 64 && bitpos % 7 == 0 && result64 < Shl(1, bitpos)
    requires result32 == result64 % 0x1_0000_0000 && AbsorbByte(c, result32, bitpos).Some?
    requires next64 == result64 + Shl(Fitting64(c, bitpos), bitpos)
    ensures AbsorbByte(c, result32, bitpos) == Some(next64 % 0x1_0000_0000)
  {
    if bitpos >= 32 {
      HighDigit(result64, Fitting64(c, bitpos), bitpos);
    } else {
      SmallResult(result64, bitpos);
      LowRoundAgrees(c, result32, bitpos);
    }
  }

  lemma SmallResult(result64: uint64, bitpos: nat)
    requires bitpos < 32 && result64 < Shl(1, bitpos)
    ensures result64 % 0x1_0000_0000 == result64
  {
    PowersOfTwo();
    ShlBound(1, bitpos, 32);
  }

  lemma LoopStep(b: seq<byte>, result32: uint32, result64: uint64, bitpos: byte) returns (next64: uint64)
    requires bitpos < 64 && bitpos % 7 == 0 && result64 < Shl(1, bitpos)
    requires result32 == result64 % 0x1_0000_0000
    requires Varint32From(b, result32, bitpos).Ok? && Varint64From(b, result64, bitpos).Ok?
    ensures next64 < Shl(1, bitpos + 7)
    ensures Varint32From(b, result32, bitpos) ==
      if b[0] >= 128 then Varint32From(b[1..], next64 % 0x1_0000_0000, bitpos + 7)
      else Ok(next64 % 0x1_0000_0000, b[1..])
    ensures Varint64From(b, result64, bitpos) ==
      if b[0] >= 128 then Varint64From(b[1..], next64, bitpos + 7) else Ok(next64, b[1..])
  {
    Round64(result64, b[0], bitpos);
    next64 := result64 + Shl(Fitting64(b[0], bitpos), bitpos);
    RoundAgrees(b[0], result32, result64, bitpos, next64);
  }

  lemma {:induction false} LoopsAgree(b: seq<byte>, result32: uint32, result64: uint64, bitpos: byte)
    requires bitpos < 64 && bitpos % 7 == 0 && result64 < Shl(1, bitpos)
    requires result32 == result64 % 0x1_0000_0000
    requires Varint32From(b, result32, bitpos).Ok? && Varint64From(b, result64, bitpos).Ok?
    ensures Varint32From(b, result32, bitpos).rest == Varint64From(b, result64, bitpos).rest
    ensures Varint32From(b, result32, bitpos).value == Varint64From(b, result64, bitpos).value % 0x1_0000_0000
    decreases |b|
  {
    var next64 := LoopStep(b, result32, result64, bitpos);
    if b[0] >= 128 {
      assert bitpos + 7 < 64;
      LoopsAgree(b[1..], next64 % 0x1_0000_0000, next64, bitpos + 7);
    }
  }

  // Whenever both decoders accept the same bytes, they consume the same number of
  // them, and their results agree modulo 2^32.
  lemma DecodersAgree(b: seq<byte>)
    requires DecodeVarint32(b).Ok? && DecodeVarint64(b).Ok?
    ensures DecodeVarint32(b).rest == DecodeVarint64(b).rest
    ensures DecodeVarint32(b).value == DecodeVarint64(b).value % 0x1_0000_0000
  {
    assert BitOr64(0, Shl(b[0] % 128, 0) % 0x1_0000_0000_0000_0000) == b[0] % 128;
    if b[0] >= 128 {
      PowersOfTwo();
      LoopsAgree(b[1..], b[0] % 128, b[0] % 128, 7);
    }
  }

  // --------------------------------------- what the 32-bit decoder accepts

  // The digits from bit 35 on are padding: zeros or ones up to bit 62, and a one
  // at bit 63.
  predicate Padding(w: nat, bitpos: nat)
    requires bitpos <= 63
    decreases 63 - bitpos
  {
    if bitpos > 56 then w == 1
    else (w % 128 == 0 || w % 128 == 127) && Padding(w / 128, bitpos + 7)
  }

  lemma {:induction false} NoPadding(bitpos: nat)
    requires bitpos <= 63
    ensures !Padding(0, bitpos)
    decreases 63 - bitpos
  {
    if bitpos <= 56 {
      NoPadding(bitpos + 7);
    }
  }

  lemma {:induction false} TailAccepted(w: nat, rest: seq<byte>, result: uint32, bitpos: byte)
    requires 35 <= bitpos <= 63 && bitpos % 7 == 0
    requires 0 < w < Shl(1, 64 - bitpos)
    ensures Varint32From(EncodeVarint(w) + rest, result, bitpos).Ok? <==> result >= TWO_TO_31 && Padding(w, bitpos)
    decreases w
  {
    EncodedHead(w, rest);
    var b := EncodeVarint(w) + rest;
    if bitpos == 63 {
      assert Shl(1, 1) == 2;
    } else {
      assert bitpos <= 56;
      if w < 128 {
        NoPadding(bitpos + 7);
      } else {
        ShlSeven(1, 57 - bitpos);
        ShlTimes(128, 57 - bitpos);
        ShlTimes(1, 57 - bitpos);
        TailAccepted(w / 128, rest, result, bitpos + 7);
      }
    }
  }

  // The bits of a 64-bit value above the first 28, in terms of w = v / 2^28.
  lemma HighBits(v: uint64, result: nat, w: nat)
    requires result < 0x1000_0000 && v == result + w * 0x1000_0000
    ensures v / 0x8_0000_0000 == w / 128
    ensures v / 0x8000_0000 % 2 == 1 <==> result + w % 16 * 0x1000_0000 >= 0x8000_0000
    ensures v >= 0x1_0000_0000 <==> w >= 16
    ensures w / 128 < 0x2000_0000
  {
    assert w == w / 16 * 16 + w % 16;
  }

  // A round on an encoded number that goes on.
  lemma EncodedRound(w: nat, rest: seq<byte>, result: uint32, bitpos: byte, next: uint32)
    requires w >= 128 && bitpos < 32 && bitpos % 7 == 0 && result < Shl(1, bitpos)
    requires next == result + Shl(if bitpos == 28 then w % 16 else w % 128, bitpos)
    ensures Varint32From(EncodeVarint(w) + rest, result, bitpos)
         == Varint32From(EncodeVarint(w / 128) + rest, next, bitpos + 7)
  {
    EncodedHead(w, rest);
    var b := EncodeVarint(w) + rest;
    NibbleOfDigit(w);
    Round32(result, b[0], bitpos);
    assert AbsorbByte(b[0], result, bitpos) == Some(next);
  }

  lemma NibbleOfDigit(w: nat)
    ensures w % 128 % 16 == w % 16
  {
  }

  // The digit at bit 28, the last one that contributes to the result.
  lemma LastDigit(w: nat, rest: seq<byte>, result: uint32, v: uint64)
    requires w >= 128 && result < Shl(1, 28) && v == result + Shl(w, 28)
    ensures Varint32From(EncodeVarint(w) + rest, result, 28).Ok?
      <==> v / 0x8000_0000 % 2 == 1 && Padding(v / 0x8_0000_0000, 35)
  {
    PowersOfTwo();
    ShlTimes(w, 28);
    HighBits(v, result, w);
    ShlTimes(w % 16, 28);
    var next := result + w % 16 * 0x1000_0000;
    EncodedRound(w, rest, result, 28, next);
    assert w / 128 < Shl(1, 29) by {
      assert Shl(1, 29) == 2 * Shl(1, 28);
    }
    TailAccepted(w / 128, rest, next, 35);
  }

  // A last byte at bit 28 with more than four bits is too large.
  lemma TooLarge(w: nat, rest: seq<byte>, result: uint32, v: uint64)
    requires w < 128 && result < Shl(1, 28) && v == result + Shl(w, 28) && v >= TWO_TO_32
    ensures Varint32From(EncodeVarint(w) + rest, result, 28).Err?
    ensures !Padding(v / 0x8_0000_0000, 35)
  {
    PowersOfTwo();
    ShlTimes(w, 28);
    HighBits(v, result, w);
    EncodedHead(w, rest);
    NoPadding(35);
  }

  // The digits below it.
  lemma {:induction false} HeadAccepted(w: nat, rest: seq<byte>, result: uint32, k: nat, v: uint64)
    requires k <= 4 && result < Shl(1, 7 * k) && v == result + Shl(w, 7 * k) && v >= TWO_TO_32
    ensures Varint32From(EncodeVarint(w) + rest, result, 7 * k).Ok?
      <==> v / 0x8000_0000 % 2 == 1 && Padding(v / 0x8_0000_0000, 35)
    decreases 4 - k
  {
    if k == 4 {
      if w < 128 {
        TooLarge(w, rest, result, v);
      } else {
        LastDigit(w, rest, result, v);
      }
    } else {
      HeadProgress(w, result, k, v);
      PowersOfTwo();
      var next := result + Shl(w % 128, 7 * k);
      EncodedRound(w, rest, result, 7 * k, next);
      HeadAccepted(w / 128, rest, next, k + 1, v);
    }
  }

  lemma HeadProgress(w: nat, result: nat, k: nat, v: nat)
    requires k < 4 && result < Shl(1, 7 * k) && v == result + Shl(w, 7 * k) && v >= TWO_TO_32
    ensures w >= 128
    ensures result + Shl(w % 128, 7 * k) < Shl(1, 7 * (k + 1)) <= Shl(1, 28)
    ensures v == result + Shl(w % 128, 7 * k) + Shl(w / 128, 7 * (k + 1))
  {
    PowersOfTwo();
    ShlDigit(w, 7 * k);
    DigitBound(result, w % 128, 7 * k);
    ShlBound(1, 7 * (k + 1), 28);
  }

  // The 32-bit decoder accepts an encoded 64-bit value exactly if it fits in 32
  // bits, or if bit 31 is set and all digits from bit 35 on are padding.
  lemma AcceptedExactly(v: uint64, rest: seq<byte>)
    ensures DecodeVarint32(EncodeVarint(v) + rest).Ok?
      <==> v < TWO_TO_32 || (v / 0x8000_0000 % 2 == 1 && Padding(v / 0x8_0000_0000, 35))
  {
    if v < TWO_TO_32 {
      Varint32RoundTrip(v, rest);
    } else {
      EncodedHead(v, rest);
      PowersOfTwo();
      ShlSeven(v / 128, 0);
      HeadAccepted(v / 128, rest, v % 128, 1, v);
    }
  }

  // In particular every negative int32, sign-extended to 64 bits, is accepted and
  // gives its 32-bit pattern.
  lemma SignExtendedAccepted(x: int, rest: seq<byte>)
    requires -0x8000_0000 <= x < 0
    ensures DecodeVarint32(EncodeVarint(x + TWO_TO_64) + rest) == Ok(x + TWO_TO_32, rest)
  {
    var v := x + TWO_TO_64;
    NegativeBits(x);
    AllOnes();
    AcceptedExactly(v, rest);
    Varint64RoundTrip(v, rest);
    DecodersAgree(EncodeVarint(v) + rest);
  }

  lemma NegativeBits(x: int)
    requires -0x8000_0000 <= x < 0
    ensures var v := x + TWO_TO_64;
      v / 0x8000_0000 % 2 == 1 && v / 0x8_0000_0000 == 0x1FFF_FFFF && v % 0x1_0000_0000 == x + TWO_TO_32
  {
  }

  lemma AllOnes()
    ensures Padding(0x1FFF_FFFF, 35)
  {
    assert Padding(1, 63);
    assert Padding(0xFF, 56);
    assert Padding(0x7FFF, 49);
    assert Padding(0x3F_FFFF, 42);
  }
}
