/**
 crc32.c as written: a static 256-entry table filled in place, most significant bit first,
 between two bit reversals, and a register driven through it a byte at a time.
 */
module CrcTable {
  import opened Bits
  import opened Crc32

  const GENERATOR: bv32 := 0x04C1_1DB7
  const TOP_BIT: bv32 := 0x8000_0000

  // ------------------------------------------------------------------------------------------
  // Bit reversal
  // ------------------------------------------------------------------------------------------

  /** The low `n` bits of `r` are those of `v` in reverse order; the others are clear. */
  ghost predicate Mirrors(r: bv32, v: bv32, n: nat)
    requires n <= 32
  {
    forall j: nat | j < 32 :: Bit(r, j) == (j < n && Bit(v, n - 1 - j))
  }

  lemma {:induction false} MirrorUnique(r: bv32, s: bv32, v: bv32, n: nat)
    requires n <= 32 && Mirrors(r, v, n) && Mirrors(s, v, n)
    ensures r == s
  {
    hide Bit;
    BitsDetermine(r, s);
  }

  /** Reversing all 32 bits twice gives the word back. */
  lemma {:induction false} MirrorInvolution(r: bv32, v: bv32)
    requires Mirrors(r, v, 32)
    ensures Mirrors(v, r, 32)
  {
    hide Bit;
    forall j: nat | j < 32
      ensures Bit(v, j) == Bit(r, 31 - j)
    {
      assert Bit(r, 31 - j) == Bit(v, 31 - (31 - j));
    }
  }

  /** Reversal turns the most-significant-first step into the register's step. */
  function MsbStep(c: bv32): bv32 {
    Xor(c << 1, if c & TOP_BIT != 0 then GENERATOR else 0)
  }

  function MsbSteps(c: bv32, n: nat): bv32 {
    if n == 0 then c else MsbStep(MsbSteps(c, n - 1))
  }

  lemma GeneratorMirrors(j: bv6)
    requires j < 32
    ensures Shifted(0xEDB8_8320, j) == Shifted(GENERATOR, 31 - j)
  {}

  lemma EndBits(c: bv32)
    ensures Bit(c, 0) == (c & 1 == 1) && Bit(c, 31) == (c & TOP_BIT != 0)
  {}

  lemma {:induction false} FeedbackMirrors(r: bv32, v: bv32, j: nat)
    requires j < 32 && Bit(r, 0) == Bit(v, 31)
    ensures Bit(Feedback(r), j) == Bit(if v & TOP_BIT != 0 then GENERATOR else 0, 31 - j)
  {
    hide Shifted;
    assert Feedback(r) == (if Bit(r, 0) then 0xEDB8_8320 else 0) by { hide Bit; EndBits(r); }
    assert Bit(v, 31) == (v & TOP_BIT != 0) by { hide Bit; EndBits(v); }
    IndexAsInt(j);
    IndexAdd(j, 31 - j);
    if Bit(r, 0) {
      GeneratorMirrors(j as bv6);
    } else {
      BitOfZero(j);
      BitOfZero(31 - j);
    }
  }

  lemma {:induction false} MirrorOfStep(r: bv32, v: bv32)
    requires Mirrors(r, v, 32)
    ensures Mirrors(Step(r), MsbStep(v), 32)
  {
    hide Bit, Xor, Half, Feedback;
    var shifted, feedback := v << 1, if v & TOP_BIT != 0 then GENERATOR else 0;
    forall j: nat | j < 32
      ensures Bit(Step(r), j) == Bit(MsbStep(v), 31 - j)
    {
      BitXor(Half(r), Feedback(r), j);
      BitXor(shifted, feedback, 31 - j);
      BitHalf(r, j);
      BitShiftLeft(v, 31 - j);
      FeedbackMirrors(r, v, j);
    }
  }

  lemma {:induction false} StepsLast(c: bv32, n: nat)
    ensures Steps(c, n + 1) == Step(Steps(c, n))
  {
    hide Step;
    StepsAdd(c, n, 1);
    assert Steps(Steps(c, n), 1) == Steps(Step(Steps(c, n)), 0);
  }

  lemma {:induction false} MirrorOfSteps(r: bv32, v: bv32, n: nat)
    requires Mirrors(r, v, 32)
    ensures Mirrors(Steps(r, n), MsbSteps(v, n), 32)
  {
    hide Step, MsbStep, Mirrors;
    if n > 0 {
      MirrorOfSteps(r, v, n - 1);
      StepsLast(r, n - 1);
      MirrorOfStep(Steps(r, n - 1), MsbSteps(v, n - 1));
    }
  }

  /** A byte, reversed and moved to the top of the word, is the reversal of the byte as a word. */
  lemma {:induction false} MirrorOfByte(i: bv32, value: bv32)
    requires i < 256 && Mirrors(value, i, 8)
    ensures Mirrors(i, value << 24, 32)
  {
    hide Bit;
    forall j: nat | j < 32
      ensures Bit(i, j) == Bit(value << 24, 31 - j)
    {
      BitShiftLeft24(value, 31 - j);
      if j < 8 {
        assert Bit(value, 7 - j) == Bit(i, 8 - 1 - (7 - j));
      } else {
        BitOfByte(i, j);
      }
    }
  }

  /** What the table must hold at `i`: eight steps of the register. */
  function Entry(i: nat): bv32
    requires i < 256
  {
    Steps(i as bv32, 8)
  }

  lemma ByteAsWord(i: nat)
    requires i < 256
    ensures (i as bv32) < 256
  {}

  /** The entry InitCRCTable computes for `i` is eight steps of the register from `i`. */
  lemma {:induction false} TableEntry(i: nat, value: bv32, entry: bv32)
    requires i < 256 && Mirrors(value, i as bv32, 8) && Mirrors(entry, MsbSteps(value << 24, 8), 32)
    ensures entry == Entry(i)
  {
    hide Step, Steps, MsbSteps, Mirrors;
    ByteAsWord(i);
    MirrorOfByte(i as bv32, value);
    MirrorOfSteps(i as bv32, value << 24, 8);
    MirrorUnique(entry, Steps(i as bv32, 8), MsbSteps(value << 24, 8), 32);
  }

  // ------------------------------------------------------------------------------------------
  // The library's code
  // ------------------------------------------------------------------------------------------

  /** The top `i - 1` of the `c` bits of `value` are set as the reversal of `word` demands. */
  ghost predicate ReversedSoFar(value: bv32, word: bv32, c: nat, i: nat)
    requires 1 <= i <= c + 1 <= 33
  {
    forall j: nat | j < 32 :: Bit(value, j) == (c - i < j < c && Bit(word, c - 1 - j))
  }

  lemma {:induction false} ReverseOneMore(value: bv32, word: bv32, c: nat, i: nat, next: bv32)
    requires 1 <= i <= c <= 32 && ReversedSoFar(value, word, c, i)
    requires next == if Bit(word, i - 1) then SetBit(value, c - i) else value
    ensures ReversedSoFar(next, word, c, i + 1)
  {
    hide Bit, SetBit;
    forall j: nat | j < 32
      ensures Bit(next, j) == (c - i <= j < c && Bit(word, c - 1 - j))
    {
      BitSet(value, c - i, j);
    }
  }

  lemma BitZeroIsLowBit(refl: bv32)
    ensures Bit(refl, 0) == (refl & 1 != 0)
  {}

  /** `refl` is `word` with its low `k` bits shifted out. */
  ghost predicate Remainder(refl: bv32, word: bv32, k: nat) {
    forall j: nat | j < 32 :: Bit(refl, j) == (j + k < 32 && Bit(word, j + k))
  }

  lemma {:induction false} RemainderHalf(refl: bv32, word: bv32, k: nat)
    requires Remainder(refl, word, k)
    ensures Remainder(Half(refl), word, k + 1)
    ensures k < 32 ==> (refl & 1 != 0) == Bit(word, k)
  {
    hide Bit, Half;
    BitZeroIsLowBit(refl);
    forall j: nat | j < 32
      ensures Bit(Half(refl), j) == (j + (k + 1) < 32 && Bit(word, j + (k + 1)))
    {
      BitHalf(refl, j);
    }
  }

  lemma StartOfReflection(word: bv32, c: nat)
    requires c <= 32
    ensures ReversedSoFar(0, word, c, 1) && Remainder(word, word, 0)
  {
    hide Bit;
    forall j: nat | j < 32
      ensures !Bit(0, j)
    {
      BitOfZero(j);
    }
  }

  lemma EndOfReflection(value: bv32, word: bv32, c: nat)
    requires c <= 32 && ReversedSoFar(value, word, c, c + 1)
    ensures Mirrors(value, word, c)
  {
    hide Bit;
    forall j: nat | j < 32
      ensures Bit(value, j) == (j < c && Bit(word, c - 1 - j))
    {
      assert c - (c + 1) < j;
    }
  }

  /** `reflect`: bit 0 of the argument becomes bit `c - 1` of the result, and so on. */
  method Reflect(word: bv32, c: nat) returns (value: bv32)
    requires c <= 32
    ensures Mirrors(value, word, c)
  {
    hide *;
    var refl := word;
    value := 0;
    StartOfReflection(word, c);
    for i := 1 to c + 1
      invariant Remainder(refl, word, i - 1)
      invariant ReversedSoFar(value, word, c, i)
    {
      ghost var before := value;
      RemainderHalf(refl, word, i - 1);
      if refl & 1 != 0 {
        value := SetBit(value, c - i);
      }
      ReverseOneMore(before, word, c, i, value);
      refl := Half(refl);
    }
    EndOfReflection(value, word, c);
  }

  lemma NoSteps(c: bv32)
    ensures MsbSteps(c, 0) == c
  {}

  lemma OneMoreStep(c: bv32, j: nat, entry: bv32)
    requires entry == MsbSteps(c, j)
    ensures Xor(entry << 1, if entry & TOP_BIT != 0 then GENERATOR else 0) == MsbSteps(c, j + 1)
  {
    hide Xor;
  }

  lemma IndexInTable(crc: bv32, b: bv8)
    ensures Xor(crc & 0xFF, b as bv32) as int < 256
  {
    assert Xor(crc & 0xFF, b as bv32) < 256;
  }

  class Table {
    const crctable: array<bv32>

    constructor ()
      ensures fresh(crctable) && crctable.Length == 256
    {
      crctable := new bv32[256];
    }

    /** The table has been filled. */
    ghost predicate Valid()
      reads crctable
    {
      && crctable.Length == 256
      && forall i | 0 <= i < 256 :: crctable[i] == Entry(i)
    }

    method InitCRCTable()
      requires crctable.Length == 256
      modifies crctable
      ensures Valid()
    {
      hide Xor, Mirrors, Entry, MsbSteps;
      for i := 0 to 256
        invariant forall k | 0 <= k < i :: crctable[k] == Entry(k)
      {
        var value := Reflect(i as bv32, 8);
        crctable[i] := value << 24;
        NoSteps(value << 24);
        for j := 0 to 8
          invariant crctable[i] == MsbSteps(value << 24, j)
          invariant forall k | 0 <= k < i :: crctable[k] == Entry(k)
        {
          OneMoreStep(value << 24, j, crctable[i]);
          crctable[i] := Xor(crctable[i] << 1, if crctable[i] & TOP_BIT != 0 then GENERATOR else 0);
        }
        crctable[i] := Reflect(crctable[i], 32);
        TableEntry(i, value, crctable[i]);
      }
    }

    /** `CalcCRC32` over the first `length` bytes at `data`. */
    method CalcCRC32(data: array<bv8>, length: nat) returns (sum: bv32)
      requires Valid() && length <= data.Length
      ensures sum == Checksum(data[..length])
    {
      hide Xor, Steps, ByteStep, Register;
      var crc := SEED;
      var i := 0;
      RegisterNil(SEED);
      while i < length
        invariant i <= length
        invariant crc == Register(SEED, data[..i])
      {
        var index := Xor(crc & 0xFF, data[i] as bv32);
        IndexInTable(crc, data[i]);
        WordRoundTrip(index);
        TableStep(crc, data[i]);
        assert data[..i + 1] == data[..i] + [data[i]];
        RegisterSnoc(SEED, data[..i], data[i]);
        crc := Xor(crc >> 8, crctable[index as int]);
        i := i + 1;
      }
      sum := Xor(crc, SEED);
    }
  }
}
