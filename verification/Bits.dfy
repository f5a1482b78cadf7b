/**
 Words of 32 bits: single bits, the algebra of exclusive or, and machine integers.  `Xor` and
 `Half` have names so that a proof which only needs their laws can hide what they do to bits.
 */
module Bits {

  predicate Shifted(x: bv32, j: bv6)
    requires j < 32
  {
    (x >> j) & 1 == 1
  }

  /** Bit `j` of `x`, bit 0 being the least significant one. */
  predicate Bit(x: bv32, j: nat)
    requires j < 32
  {
    Shifted(x, j as bv6)
  }

  function SetBit(x: bv32, k: nat): bv32
    requires k < 32
  {
    x | (1 << (k as bv6))
  }

  function Xor(x: bv32, y: bv32): bv32 {
    x ^ y
  }

  function Half(x: bv32): bv32 {
    x >> 1
  }

  function Complement(x: bv32): bv32 {
    !x
  }

  /** An unsigned 32-bit integer as a word, and back. */
  function ToWord(x: nat): bv32
    requires x < 0x1_0000_0000
  {
    x as bv32
  }

  function ToNat(x: bv32): nat {
    x as int
  }

  // ------------------------------------------------------------------------------------------
  // Exclusive or
  // ------------------------------------------------------------------------------------------

  lemma XorAssociative(x: bv32, y: bv32, z: bv32)
    ensures Xor(Xor(x, y), z) == Xor(x, Xor(y, z))
  {}

  lemma XorCommutes(x: bv32, y: bv32)
    ensures Xor(x, y) == Xor(y, x)
  {}

  lemma XorSelf(x: bv32)
    ensures Xor(x, x) == 0
  {}

  lemma XorZero(x: bv32)
    ensures Xor(x, 0) == x
  {}

  lemma {:induction false} XorCancels(x: bv32, y: bv32, z: bv32)
    requires Xor(x, z) == Xor(y, z)
    ensures x == y
  {
    hide Xor;
    XorAssociative(x, z, z);
    XorAssociative(y, z, z);
    XorSelf(z);
    XorZero(x);
    XorZero(y);
  }

  lemma HalfOfXor(x: bv32, y: bv32)
    ensures Half(Xor(x, y)) == Xor(Half(x), Half(y))
  {}

  // ------------------------------------------------------------------------------------------
  // Single bits
  // ------------------------------------------------------------------------------------------

  lemma ShiftedXor(x: bv32, y: bv32, j: bv6)
    requires j < 32
    ensures Shifted(x ^ y, j) == (Shifted(x, j) != Shifted(y, j))
  {}

  lemma ShiftedHalf(x: bv32, j: bv6)
    requires j < 32
    ensures Shifted(x >> 1, j) == (j < 31 && Shifted(x, j + 1))
  {}

  lemma ShiftedLeft(x: bv32, j: bv6)
    requires j < 31
    ensures Shifted(x << 1, j + 1) == Shifted(x, j) && !Shifted(x << 1, 0)
  {}

  lemma ShiftedLeft24(x: bv32, j: bv6)
    requires j < 8
    ensures Shifted(x << 24, j + 24) == Shifted(x, j)
    ensures !Shifted(x << 24, j) && !Shifted(x << 24, j + 8) && !Shifted(x << 24, j + 16)
  {}

  lemma ShiftedSet(x: bv32, k: bv6, j: bv6)
    requires j < 32 && k < 32
    ensures Shifted(x | (1 << k), j) == (Shifted(x, j) || j == k)
  {}

  lemma IndexAsInt(j: nat)
    requires j < 64
    ensures (j as bv6) as int == j
  {}

  lemma IndexAsWord(j: bv6)
    ensures (j as int) as bv6 == j
  {}

  lemma IndexSum(j: bv6, k: bv6)
    requires j as int + k as int < 64
    ensures (j + k) as int == j as int + k as int
  {}

  /** Adding positions as integers and as machine words is the same. */
  lemma {:induction false} IndexAdd(j: nat, k: nat)
    requires j + k < 64
    ensures (j + k) as bv6 == (j as bv6) + (k as bv6)
  {
    IndexAsInt(j);
    IndexAsInt(k);
    IndexSum(j as bv6, k as bv6);
    IndexAsWord((j as bv6) + (k as bv6));
  }

  lemma {:induction false} BitXor(x: bv32, y: bv32, j: nat)
    requires j < 32
    ensures Bit(Xor(x, y), j) == (Bit(x, j) != Bit(y, j))
  {
    hide Shifted;
    ShiftedXor(x, y, j as bv6);
  }

  lemma {:induction false} BitHalf(x: bv32, j: nat)
    requires j < 32
    ensures Bit(Half(x), j) == (j < 31 && Bit(x, j + 1))
  {
    hide Shifted;
    ShiftedHalf(x, j as bv6);
    IndexAsInt(j);
    IndexAdd(j, 1);
  }

  lemma {:induction false} BitShiftLeft(x: bv32, j: nat)
    requires j < 32
    ensures Bit(x << 1, j) == (j > 0 && Bit(x, j - 1))
  {
    hide Shifted;
    if j > 0 {
      ShiftedLeft(x, (j - 1) as bv6);
      IndexAdd(j - 1, 1);
    } else {
      ShiftedLeft(x, 0);
    }
  }

  lemma {:induction false} BitShiftLeft24(x: bv32, j: nat)
    requires j < 32
    ensures Bit(x << 24, j) == (j >= 24 && Bit(x, j - 24))
  {
    hide Shifted;
    var k := j % 8;
    ShiftedLeft24(x, k as bv6);
    IndexAdd(k, 8);
    IndexAdd(k, 16);
    IndexAdd(k, 24);
    assert j == k || j == k + 8 || j == k + 16 || j == k + 24;
  }

  lemma {:induction false} BitSet(x: bv32, k: nat, j: nat)
    requires j < 32 && k < 32
    ensures Bit(SetBit(x, k), j) == (Bit(x, j) || j == k)
  {
    hide Shifted;
    ShiftedSet(x, k as bv6, j as bv6);
    IndexAsInt(j);
    IndexAsInt(k);
  }

  lemma BitOfZero(j: nat)
    requires j < 32
    ensures !Bit(0, j)
  {}

  lemma {:induction false} BitOfByte(x: bv32, j: nat)
    requires x < 256 && 8 <= j < 32
    ensures !Bit(x, j)
  {
    hide Shifted;
    IndexAsInt(j);
    HighBitOfByte(x, j as bv6);
  }

  lemma HighBitOfByte(x: bv32, j: bv6)
    requires x < 256 && 8 <= j as int < 32
    ensures !Shifted(x, j)
  {}

  /** A word without a set bit is zero. */
  lemma {:induction false} NoBitSet(d: bv32)
    requires forall j: nat | j < 32 :: !Bit(d, j)
    ensures d == 0
  {
    assert !Bit(d, 0) && !Bit(d, 1) && !Bit(d, 2) && !Bit(d, 3) && !Bit(d, 4) && !Bit(d, 5) && !Bit(d, 6) && !Bit(d, 7);
    assert !Bit(d, 8) && !Bit(d, 9) && !Bit(d, 10) && !Bit(d, 11) && !Bit(d, 12) && !Bit(d, 13) && !Bit(d, 14);
    assert !Bit(d, 15);
    assert !Bit(d, 16) && !Bit(d, 17) && !Bit(d, 18) && !Bit(d, 19) && !Bit(d, 20) && !Bit(d, 21) && !Bit(d, 22);
    assert !Bit(d, 23);
    assert !Bit(d, 24) && !Bit(d, 25) && !Bit(d, 26) && !Bit(d, 27) && !Bit(d, 28) && !Bit(d, 29) && !Bit(d, 30);
    assert !Bit(d, 31);
  }

  /** Two words with the same 32 bits are the same word. */
  lemma {:induction false} BitsDetermine(x: bv32, y: bv32)
    requires forall j: nat | j < 32 :: Bit(x, j) == Bit(y, j)
    ensures x == y
  {
    hide *;
    var d := Xor(x, y);
    forall j: nat | j < 32
      ensures !Bit(d, j)
    {
      BitXor(x, y, j);
    }
    NoBitSet(d);
    XorSelf(y);
    XorCancels(x, y, y);
  }

  // ------------------------------------------------------------------------------------------
  // Machine words and integers
  // ------------------------------------------------------------------------------------------

  lemma DoubleAsInt(b: bv32)
    requires b as int < 0x8000_0000
    ensures (b << 1) as int == 2 * (b as int)
    ensures ((b << 1) | 1) as int == 2 * (b as int) + 1
  {}

  lemma {:induction false} WordOf(x: nat) returns (b: bv32)
    requires x < 0x1_0000_0000
    ensures b as int == x
  {
    if x == 0 {
      b := 0;
    } else {
      var half := WordOf(x / 2);
      DoubleAsInt(half);
      b := if x % 2 == 0 then half << 1 else (half << 1) | 1;
    }
  }

  lemma WordRoundTrip(x: bv32)
    ensures ToNat(x) < 0x1_0000_0000 && ToWord(ToNat(x)) == x
  {}

  /** An integer that fits in 32 bits survives the trip through the machine word. */
  lemma {:induction false} IntRoundTrip(x: nat)
    requires x < 0x1_0000_0000
    ensures ToNat(ToWord(x)) == x
  {
    var b := WordOf(x);
    WordRoundTrip(b);
  }

  lemma DoubleComplement(x: bv32)
    ensures Complement(Complement(x)) == x
  {}
}
