// The bits of a natural number, and the bitmap in which pb_decode_noinit records
// the required fields it has seen.
module Bitmap {
  import opened Bits

  predicate Bit(w: nat, j: nat) {
    if j == 0 then w % 2 == 1 else Bit(w / 2, j - 1)
  }

  lemma {:induction false} BitOfOr(a: nat, b: nat, j: nat)
    ensures Bit(BitOr(a, b), j) <==> Bit(a, j) || Bit(b, j)
  {
    if a == 0 {
      NoBit(j);
    } else if b == 0 {
      NoBit(j);
    } else if j > 0 {
      BitOfOr(a / 2, b / 2, j - 1);
    }
  }

  lemma {:induction false} NoBit(j: nat)
    ensures !Bit(0, j)
  {
    if j > 0 {
      NoBit(j - 1);
    }
  }

  lemma {:induction false} BitOfShl(k: nat, j: nat)
    ensures Bit(Shl(1, k), j) <==> j == k
  {
    if k == 0 && j > 0 {
      NoBit(j - 1);
    } else if k > 0 && j > 0 {
      BitOfShl(k - 1, j - 1);
    }
  }

  // v >> n
  function Shr(v: nat, n: nat): nat {
    if n == 0 then v else Shr(v / 2, n - 1)
  }

  // n ones
  function Ones(n: nat): nat {
    if n == 0 then 0 else 2 * Ones(n - 1) + 1
  }

  lemma {:induction false} ShrOnes(n: nat, k: nat)
    requires k <= n
    ensures Shr(Ones(n), k) == Ones(n - k)
  {
    if k > 0 {
      ShrOnes(n - 1, k - 1);
    }
  }

  lemma {:induction false} OnesBelow(n: nat)
    ensures Ones(n) + 1 == Shl(1, n)
  {
    if n > 0 {
      OnesBelow(n - 1);
    }
  }

  lemma {:induction false} BitOfOnes(n: nat, j: nat)
    ensures Bit(Ones(n), j) <==> j < n
  {
    if n == 0 {
      NoBit(j);
    } else if j > 0 {
      BitOfOnes(n - 1, j - 1);
    }
  }

  // Numbers below 2^n are equal if their first n bits are.
  lemma {:induction false} SameBits(a: nat, b: nat, n: nat)
    requires a < Shl(1, n) && b < Shl(1, n)
    requires forall j :: 0 <= j < n ==> (Bit(a, j) <==> Bit(b, j))
    ensures a == b
  {
    if n > 0 {
      assert Bit(a, 0) <==> Bit(b, 0);
      forall j | 0 <= j < n - 1
        ensures Bit(a / 2, j) <==> Bit(b / 2, j)
      {
        assert Bit(a, j + 1) <==> Bit(b, j + 1);
      }
      SameBits(a / 2, b / 2, n - 1);
    }
  }

  ghost predicate BitsSet(w: nat, r: nat) {
    forall j :: 0 <= j < r ==> Bit(w, j)
  }

  // A word with no bits at or above r is r ones exactly if all lower bits are set.
  lemma LowBitsSet(w: uint32, r: nat)
    requires r <= 32 && forall j :: r <= j < 32 ==> !Bit(w, j)
    ensures w == Ones(r) <==> BitsSet(w, r)
  {
    forall j | 0 <= j < 32
      ensures Bit(Ones(r), j) <==> j < r
    {
      BitOfOnes(r, j);
    }
    if BitsSet(w, r) {
      PowersOfTwo();
      OnesBelow(r);
      ShlBound(1, r, 32);
      SameBits(w, Ones(r), 32);
    }
  }

  const ALL_BITS: uint32 := 0xFFFF_FFFF

  lemma AllBits()
    ensures ALL_BITS == Ones(32)
  {
    PowersOfTwo();
    OnesBelow(32);
  }

  // fields_seen[0..2] holds exactly the indexes in `seen`.
  ghost predicate Holds(words: seq<uint32>, seen: set<nat>) {
    && |words| == 2
    && forall i, j :: 0 <= i < 2 && 0 <= j < 32 ==> (Bit(words[i], j) <==> 32 * i + j in seen)
  }

  // fields_seen[index >> 5] |= 1 << (index & 31)
  method Mark(words: array<uint32>, index: nat, ghost seen: set<nat>)
    requires words.Length == 2 && index < 64 && Holds(words[..], seen)
    modifies words
    ensures Holds(words[..], seen + {index})
  {
    PowersOfTwo();
    ShlBound(1, index % 32, 31);
    assert Shl(1, 32) == 2 * Shl(1, 31);
    var bit: uint32 := Shl(1, index % 32);
    ghost var before := words[..];
    words[index / 32] := BitOr32(words[index / 32], bit);
    forall i, j | 0 <= i < 2 && 0 <= j < 32
      ensures Bit(words[..][i], j) <==> 32 * i + j in seen + {index}
    {
      if i == index / 32 {
        BitOfOr(before[i], bit, j);
        BitOfShl(index % 32, j);
      }
    }
  }

  // The final test: whole words against all ones, then the remaining bits.  It
  // passes exactly if every index below `count` has been recorded.
  method AllMarked(words: array<uint32>, count: nat, ghost seen: set<nat>) returns (ok: bool)
    requires words.Length == 2 && count <= 64 && Holds(words[..], seen)
    requires forall r :: r in seen ==> r < count
    ensures ok <==> forall r :: 0 <= r < count ==> r in seen
  {
    AllBits();
    ghost var w := words[..];
    if count > 0 {
      var i := 0;
      while i < count / 32
        invariant 0 <= i <= count / 32
        invariant forall r :: 0 <= r < 32 * i ==> r in seen
      {
        WordSet(w, seen, i, 32);
        if words[i] != ALL_BITS {
          return false;
        }
        i := i + 1;
      }
      if count % 32 != 0 {
        WordSet(w, seen, i, count % 32);
        ShrOnes(32, 32 - count % 32);
        if words[count / 32] != Shr(ALL_BITS, 32 - count % 32) {
          return false;
        }
      }
    }
    ok := true;
  }

  // One word of the bitmap, of which r bits are in use.
  lemma WordSet(words: seq<uint32>, seen: set<nat>, i: nat, r: nat)
    requires Holds(words, seen) && i < 2 && r <= 32
    requires forall x :: x in seen ==> x < 32 * i + r || x >= 32 * i + 32
    ensures words[i] == Ones(r) <==> forall x :: 32 * i <= x < 32 * i + r ==> x in seen
  {
    LowBitsSet(words[i], r);
    if BitsSet(words[i], r) {
      forall x | 32 * i <= x < 32 * i + r
        ensures x in seen
      {
        assert Bit(words[i], x - 32 * i);
      }
    }
    if forall x :: 32 * i <= x < 32 * i + r ==> x in seen {
      forall j | 0 <= j < r
        ensures Bit(words[i], j)
      {
        assert 32 * i + j in seen;
      }
    }
  }
}
