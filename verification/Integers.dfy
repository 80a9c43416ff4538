// The conversions between a struct's integers and the 64-bit values that go
// through the varint codec: pb_enc_varint and its kin, pb_dec_varint and its kin.
module Integers {
  import opened Wrappers
  import opened Bits

  predicate IntegerSize(size: nat) {
    size == 1 || size == 2 || size == 4 || size == 8
  }

  // 2^(size), for the sizes of the C integer types.
  function Modulus(size: nat): (m: nat)
    requires IntegerSize(size)
  {
    if size == 1 then 0x100 else if size == 2 then 0x1_0000 else if size == 4 then TWO_TO_32 else TWO_TO_64
  }

  predicate SignedRange(x: int, size: nat)
    requires IntegerSize(size)
  {
    0 <= x + Modulus(size) / 2 < Modulus(size)
  }

  predicate UnsignedRange(x: int, size: nat)
    requires IntegerSize(size)
  {
    0 <= x < Modulus(size)
  }

  function Wrap(u: nat, modulus: nat): int {
    if u < modulus / 2 then u else u - modulus
  }

  // C's conversion of an integer to the signed type of the given size.
  function ToSigned(v: int, size: nat): (s: int)
    requires IntegerSize(size)
    ensures SignedRange(s, size)
  {
    if size == 1 then Wrap(v % 0x100, 0x100)
    else if size == 2 then Wrap(v % 0x1_0000, 0x1_0000)
    else if size == 4 then Wrap(v % 0x1_0000_0000, TWO_TO_32)
    else Wrap(v % 0x1_0000_0000_0000_0000, TWO_TO_64)
  }

  // C's conversion of an integer to the unsigned type of the given size.
  function ToUnsigned(v: int, size: nat): (u: nat)
    requires IntegerSize(size)
    ensures UnsignedRange(u, size)
  {
    if size == 1 then v % 0x100
    else if size == 2 then v % 0x1_0000
    else if size == 4 then v % 0x1_0000_0000
    else v % 0x1_0000_0000_0000_0000
  }

  // The value a signed varint field is encoded as: the int64 read as a uint64.
  function VarintPayload(x: int): (v: nat)
    ensures v < TWO_TO_64
  {
    x % 0x1_0000_0000_0000_0000
  }

  // pb_encode_svarint's zigzag transformation.
  function ZigZag(x: int): (v: nat)
    ensures v < TWO_TO_64
  {
    if x < 0 then TWO_TO_64 - 1 - (2 * x) % 0x1_0000_0000_0000_0000 else (2 * x) % 0x1_0000_0000_0000_0000
  }

  // pb_decode_svarint's inverse.
  function UnZigZag(v: nat): int
    requires v < TWO_TO_64
  {
    if v % 2 == 1 then ToSigned(TWO_TO_64 - 1 - v / 2, 8) else ToSigned(v / 2, 8)
  }

  // pb_dec_varint: 64-bit fields keep the value, narrower ones are first cast to
  // int32, then to their own size, which must not change the value.
  function NarrowSigned(v: nat, size: nat): Option<int>
  {
    if !IntegerSize(size) then None else
    var svalue := if size == 8 then ToSigned(v, 8) else ToSigned(v, 4);
    var clamped := ToSigned(svalue, size);
    if clamped != svalue then None else Some(clamped)
  }

  // pb_dec_uvarint
  function NarrowUnsigned(v: nat, size: nat): Option<int>
  {
    if !IntegerSize(size) then None else
    var clamped := ToUnsigned(v, size);
    if clamped != v then None else Some(clamped)
  }

  // pb_dec_svarint
  function NarrowZigZag(v: nat, size: nat): Option<int>
    requires v < TWO_TO_64
  {
    if !IntegerSize(size) then None else
    var value := UnZigZag(v);
    var clamped := ToSigned(value, size);
    if clamped != value then None else Some(clamped)
  }

  // Equality modulo the range of a C integer type.
  predicate Congruent(x: int, y: int, size: nat)
    requires IntegerSize(size)
  {
    if size == 1 then (x - y) % 0x100 == 0
    else if size == 2 then (x - y) % 0x1_0000 == 0
    else if size == 4 then (x - y) % 0x1_0000_0000 == 0
    else (x - y) % 0x1_0000_0000_0000_0000 == 0
  }

  lemma ToSignedExact(v: int, size: nat, s: int)
    requires IntegerSize(size)
    ensures ToSigned(v, size) == s <==> SignedRange(s, size) && Congruent(v, s, size)
  {
    if size == 1 {
      WrapExact(v, s, 0x100);
    } else if size == 2 {
      WrapExact(v, s, 0x1_0000);
    } else if size == 4 {
      WrapExact(v, s, TWO_TO_32);
    } else {
      WrapExact(v, s, TWO_TO_64);
    }
  }

  lemma WrapExact(v: int, s: int, modulus: nat)
    requires modulus == 0x100 || modulus == 0x1_0000 || modulus == TWO_TO_32 || modulus == TWO_TO_64
    ensures Wrap(v % modulus, modulus) == s <==> 0 <= s + modulus / 2 < modulus && (v - s) % modulus == 0
  {
    var q := v / modulus;
    var u := v % modulus;
    assert v == q * modulus + u;
    if 0 <= s + modulus / 2 < modulus && (v - s) % modulus == 0 {
      var p := (v - s) / modulus;
      assert v - s == p * modulus;
      assert s == u + (q - p) * modulus;
    }
    if Wrap(u, modulus) == s {
      assert v - s == q * modulus || v - s == (q + 1) * modulus;
    }
  }

  // Decoding a signed field accepts exactly the values congruent, modulo 2^32 for
  // the narrow sizes and 2^64 for the wide one, to an integer that fits the field,
  // and yields that integer.
  lemma NarrowSignedExact(v: nat, size: nat, x: int)
    requires v < TWO_TO_64 && IntegerSize(size)
    ensures NarrowSigned(v, size) == Some(x) <==>
      SignedRange(x, size) && Congruent(v, x, if size == 8 then 8 else 4)
  {
    var wide := if size == 8 then 8 else 4;
    ToSignedExact(v, wide, x);
    ToSignedExact(x, size, x);
  }

  // Decoding an unsigned field accepts exactly the values that fit.
  lemma NarrowUnsignedExact(v: nat, size: nat, x: int)
    requires IntegerSize(size)
    ensures NarrowUnsigned(v, size) == Some(x) <==> v == x && UnsignedRange(x, size)
  {
  }

  // Decoding a zigzag field accepts exactly the encodings of the integers that fit.
  lemma NarrowZigZagExact(v: nat, size: nat, x: int)
    requires v < TWO_TO_64 && IntegerSize(size)
    ensures NarrowZigZag(v, size) == Some(x) <==> SignedRange(x, size) && v == ZigZag(x)
  {
    ToSignedExact(x, size, x);
    UnZigZagValue(v);
    if SignedRange(x, size) {
      ZigZagValue(x);
    }
  }

  lemma ZigZagValue(x: int)
    requires SignedRange(x, 8)
    ensures ZigZag(x) == if x < 0 then -2 * x - 1 else 2 * x
  {
  }

  lemma UnZigZagValue(v: nat)
    requires v < TWO_TO_64
    ensures UnZigZag(v) == if v % 2 == 1 then -(v / 2) - 1 else v / 2
  {
    ToSignedExact(TWO_TO_64 - 1 - v / 2, 8, -1 - v / 2);
    ToSignedExact(v / 2, 8, v / 2);
  }

  // So every integer that fits its field survives the conversion and its inverse.
  lemma SignedRoundTrip(x: int, size: nat)
    requires IntegerSize(size) && SignedRange(x, size)
    ensures NarrowSigned(VarintPayload(x), size) == Some(x)
  {
    NarrowSignedExact(VarintPayload(x), size, x);
    PayloadCongruent(x);
  }

  lemma ZigZagRoundTrip(x: int, size: nat)
    requires IntegerSize(size) && SignedRange(x, size)
    ensures NarrowZigZag(ZigZag(x), size) == Some(x)
  {
    NarrowZigZagExact(ZigZag(x), size, x);
  }

  lemma PayloadCongruent(x: int)
    ensures Congruent(VarintPayload(x), x, 8)
    ensures Congruent(VarintPayload(x), x, 4)
  {
    var q := x / 0x1_0000_0000_0000_0000;
    assert VarintPayload(x) - x == -q * TWO_TO_64;
    assert VarintPayload(x) - x == (-q * TWO_TO_32) * TWO_TO_32;
  }
}
