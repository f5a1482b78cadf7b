/**
 The CRC-32 of crc32.c as a register that takes one bit at a time, least significant bit first, or
 one byte at a time by a table entry; and what it detects.
 */
module Crc32 {
  import opened Bits

  const SEED: bv32 := 0xFFFF_FFFF

  /** The generator 0x04C11DB7 with its bits reversed, fed back when a one drops out. */
  function Feedback(c: bv32): bv32 {
    if c & 1 == 1 then 0xEDB8_8320 else 0
  }

  function Step(c: bv32): bv32 {
    Xor(Half(c), Feedback(c))
  }

  /** `n` steps without input. */
  function Steps(c: bv32, n: nat): bv32
    decreases n
  {
    if n == 0 then c else Steps(Step(c), n - 1)
  }

  /** A byte enters at the low end and is shifted out bit by bit. */
  function ByteStep(c: bv32, b: bv8): bv32 {
    Steps(Xor(c, b as bv32), 8)
  }

  function Register(c: bv32, data: seq<bv8>): bv32 {
    if data == [] then c else ByteStep(Register(c, data[..|data| - 1]), data[|data| - 1])
  }

  function Checksum(data: seq<bv8>): bv32 {
    Xor(Register(SEED, data), SEED)
  }

  // ------------------------------------------------------------------------------------------
  // Laws of the register
  // ------------------------------------------------------------------------------------------

  lemma StepInjective(x: bv32, y: bv32)
    requires Step(x) == Step(y)
    ensures x == y
  {}

  lemma {:induction false} StepsInjective(x: bv32, y: bv32, n: nat)
    requires Steps(x, n) == Steps(y, n)
    ensures x == y
    decreases n
  {
    hide Step;
    if n > 0 {
      StepsInjective(Step(x), Step(y), n - 1);
      StepInjective(x, y);
    }
  }

  /** The low `n` bits of `x` are clear. */
  predicate LowClear(x: bv32, n: nat)
    decreases n
  {
    n == 0 || (x & 1 == 0 && LowClear(Half(x), n - 1))
  }

  function Halves(x: bv32, n: nat): bv32
    decreases n
  {
    if n == 0 then x else Halves(Half(x), n - 1)
  }

  lemma FeedbackOfLowBit(high: bv32, low: bv32)
    requires high & 1 == 0
    ensures Feedback(Xor(high, low)) == Feedback(low)
  {}

  /** While its low bit is clear, `high` only slides past the feedback of `low`. */
  lemma {:induction false} StepSlides(high: bv32, low: bv32)
    requires high & 1 == 0
    ensures Step(Xor(high, low)) == Xor(Half(high), Step(low))
  {
    hide Xor, Half, Feedback;
    FeedbackOfLowBit(high, low);
    HalfOfXor(high, low);
    XorAssociative(Half(high), Half(low), Feedback(low));
  }

  lemma {:induction false} StepsSlide(high: bv32, low: bv32, n: nat)
    requires LowClear(high, n)
    ensures Steps(Xor(high, low), n) == Xor(Halves(high, n), Steps(low, n))
    decreases n
  {
    hide Xor, Half, Step;
    if n > 0 {
      StepSlides(high, low);
      StepsSlide(Half(high), Step(low), n - 1);
    }
  }

  lemma ClearBits(x: bv32)
    requires x & 0xFF == 0
    ensures x & 1 == 0 && (x >> 1) & 1 == 0 && (x >> 2) & 1 == 0 && (x >> 3) & 1 == 0
    ensures (x >> 4) & 1 == 0 && (x >> 5) & 1 == 0 && (x >> 6) & 1 == 0 && (x >> 7) & 1 == 0
  {}

  lemma HalvesOfShifts(x: bv32)
    ensures Half(x) == x >> 1 && Half(x >> 1) == x >> 2 && Half(x >> 2) == x >> 3 && Half(x >> 3) == x >> 4
    ensures Half(x >> 4) == x >> 5 && Half(x >> 5) == x >> 6 && Half(x >> 6) == x >> 7 && Half(x >> 7) == x >> 8
  {}

  lemma {:induction false} EightHalves(x: bv32)
    requires x & 0xFF == 0
    ensures LowClear(x, 8) && Halves(x, 8) == x >> 8
  {
    hide Half;
    ClearBits(x);
    HalvesOfShifts(x);
    assert LowClear(x >> 7, 1) && Halves(x >> 7, 1) == x >> 8;
    assert LowClear(x >> 6, 2) && Halves(x >> 6, 2) == x >> 8;
    assert LowClear(x >> 5, 3) && Halves(x >> 5, 3) == x >> 8;
    assert LowClear(x >> 4, 4) && Halves(x >> 4, 4) == x >> 8;
    assert LowClear(x >> 3, 5) && Halves(x >> 3, 5) == x >> 8;
    assert LowClear(x >> 2, 6) && Halves(x >> 2, 6) == x >> 8;
    assert LowClear(x >> 1, 7) && Halves(x >> 1, 7) == x >> 8;
  }

  /** Eight steps see only the low byte; everything above it slides down. */
  lemma {:induction false} EightSteps(high: bv32, low: bv32)
    requires high & 0xFF == 0
    ensures Steps(Xor(high, low), 8) == Xor(high >> 8, Steps(low, 8))
  {
    hide *;
    EightHalves(high);
    StepsSlide(high, low, 8);
  }

  lemma SplitLowByte(c: bv32, b: bv8)
    ensures (c & 0xFFFF_FF00) & 0xFF == 0
    ensures (c & 0xFFFF_FF00) >> 8 == c >> 8
    ensures Xor(c & 0xFFFF_FF00, Xor(c & 0xFF, b as bv32)) == Xor(c, b as bv32)
  {}

  /** The byte-at-a-time update of CalcCRC32 is eight steps of the register. */
  lemma {:induction false} TableStep(c: bv32, b: bv8)
    ensures Xor(c >> 8, Steps(Xor(c & 0xFF, b as bv32), 8)) == ByteStep(c, b)
  {
    hide Step, Steps, Xor;
    SplitLowByte(c, b);
    EightSteps(c & 0xFFFF_FF00, Xor(c & 0xFF, b as bv32));
  }

  lemma {:induction false} StepsAdd(x: bv32, m: nat, n: nat)
    ensures Steps(Steps(x, m), n) == Steps(x, m + n)
    decreases m
  {
    hide Step;
    if m > 0 {
      StepsAdd(Step(x), m - 1, n);
    }
  }

  lemma {:induction false} RegisterConcat(c: bv32, x: seq<bv8>, y: seq<bv8>)
    ensures Register(c, x + y) == Register(Register(c, x), y)
  {
    hide ByteStep;
    if y == [] {
      assert x + y == x;
    } else {
      var front := y[..|y| - 1];
      assert (x + y)[..|x + y| - 1] == x + front;
      RegisterConcat(c, x, front);
    }
  }

  /** Different registers stay different whatever passes through both of them. */
  lemma {:induction false} RegisterInjective(c: bv32, d: bv32, data: seq<bv8>)
    requires Register(c, data) == Register(d, data)
    ensures c == d
    decreases |data|
  {
    hide Steps, Xor;
    if data != [] {
      var front, b := data[..|data| - 1], data[|data| - 1];
      StepsInjective(Xor(Register(c, front), b as bv32), Xor(Register(d, front), b as bv32), 8);
      XorCancels(Register(c, front), Register(d, front), b as bv32);
      RegisterInjective(c, d, front);
    }
  }

  // ------------------------------------------------------------------------------------------
  // Four bytes are one word
  // ------------------------------------------------------------------------------------------

  function LowByte(w: bv32): bv8 {
    (w & 0xFF) as bv8
  }

  function Shift8(w: bv32): bv32 {
    w >> 8
  }

  /** The bytes of a word in memory order (little endian). */
  function Le32(w: bv32): (s: seq<bv8>)
    ensures |s| == 4
  {
    [LowByte(w), LowByte(Shift8(w)), LowByte(Shift8(Shift8(w))), LowByte(Shift8(Shift8(Shift8(w))))]
  }

  function Pack(b0: bv8, b1: bv8, b2: bv8, b3: bv8): bv32 {
    (b0 as bv32) | ((b1 as bv32) << 8) | ((b2 as bv32) << 16) | ((b3 as bv32) << 24)
  }

  /** The word stored at the start of `s`. */
  function U32(s: seq<bv8>): bv32
    requires |s| >= 4
  {
    Pack(s[0], s[1], s[2], s[3])
  }

  lemma PackLowBytes(w: bv32)
    ensures Pack(LowByte(w), LowByte(Shift8(w)), LowByte(Shift8(Shift8(w))), LowByte(Shift8(Shift8(Shift8(w))))) == w
  {}

  lemma LowBytesOfPack(b0: bv8, b1: bv8, b2: bv8, b3: bv8)
    ensures var w := Pack(b0, b1, b2, b3);
            && LowByte(w) == b0 && LowByte(Shift8(w)) == b1
            && LowByte(Shift8(Shift8(w))) == b2 && LowByte(Shift8(Shift8(Shift8(w)))) == b3
  {}

  lemma {:induction false} U32OfLe32(w: bv32)
    ensures U32(Le32(w)) == w
  {
    hide LowByte, Pack, Shift8;
    PackLowBytes(w);
  }

  lemma {:induction false} Le32OfU32(s: seq<bv8>)
    requires |s| == 4
    ensures Le32(U32(s)) == s
  {
    hide LowByte, Pack, Shift8;
    var w := U32(s);
    LowBytesOfPack(s[0], s[1], s[2], s[3]);
    assert Le32(w) == [s[0], s[1], s[2], s[3]];
  }

  lemma SplitWord(c: bv32, w: bv32)
    ensures (w & 0xFFFF_FF00) & 0xFF == 0 && (w & 0xFFFF_FF00) >> 8 == Shift8(w)
    ensures Xor(w & 0xFFFF_FF00, Xor(c, LowByte(w) as bv32)) == Xor(c, w)
  {}

  lemma {:induction false} WordByteStep(c: bv32, w: bv32)
    ensures Steps(Xor(c, w), 8) == Xor(ByteStep(c, LowByte(w)), Shift8(w))
  {
    hide Step, Steps, Xor, LowByte, Shift8;
    SplitWord(c, w);
    EightSteps(w & 0xFFFF_FF00, Xor(c, LowByte(w) as bv32));
    XorCommutes(Shift8(w), ByteStep(c, LowByte(w)));
  }

  lemma RegisterNil(c: bv32)
    ensures Register(c, []) == c
  {}

  lemma RegisterSnoc(c: bv32, data: seq<bv8>, b: bv8)
    ensures Register(c, data + [b]) == ByteStep(Register(c, data), b)
  {
    hide ByteStep;
    assert (data + [b])[..|data|] == data;
  }

  lemma {:induction false} FourBytes(c: bv32, s: seq<bv8>)
    requires |s| == 4
    ensures Register(c, s) == ByteStep(ByteStep(ByteStep(ByteStep(c, s[0]), s[1]), s[2]), s[3])
  {
    hide ByteStep;
    assert s[..1] == [] + [s[0]] && s[..2] == s[..1] + [s[1]] && s[..3] == s[..2] + [s[2]] && s == s[..3] + [s[3]];
    RegisterSnoc(c, [], s[0]);
    RegisterSnoc(c, s[..1], s[1]);
    RegisterSnoc(c, s[..2], s[2]);
    RegisterSnoc(c, s[..3], s[3]);
  }

  lemma ShiftsOut(w: bv32)
    ensures Shift8(Shift8(Shift8(Shift8(w)))) == 0
  {}

  /** Passing the four bytes of `w` is xoring `w` in and stepping 32 times. */
  lemma {:induction false} RegisterOfWord(c: bv32, w: bv32)
    ensures Register(c, Le32(w)) == Steps(Xor(c, w), 32)
  {
    hide Step, Steps, Xor, LowByte, ByteStep, Register, Shift8;
    var s, w1, w2, w3 := Le32(w), Shift8(w), Shift8(Shift8(w)), Shift8(Shift8(Shift8(w)));
    var c1 := ByteStep(c, s[0]);
    var c2 := ByteStep(c1, s[1]);
    var c3 := ByteStep(c2, s[2]);
    var c4 := ByteStep(c3, s[3]);
    FourBytes(c, s);
    WordByteStep(c, w);
    WordByteStep(c1, w1);
    WordByteStep(c2, w2);
    WordByteStep(c3, w3);
    ShiftsOut(w);
    XorZero(c4);
    StepsAdd(Xor(c, w), 8, 8);
    StepsAdd(Xor(c, w), 16, 8);
    StepsAdd(Xor(c, w), 24, 8);
  }

  // ------------------------------------------------------------------------------------------
  // What the checksum detects
  // ------------------------------------------------------------------------------------------

  /** A frame ends in the checksum of everything before it. */
  predicate SelfChecking(frame: seq<bv8>)
    requires |frame| >= 4
  {
    U32(frame[|frame| - 4..]) == Checksum(frame[..|frame| - 4])
  }

  /** What the register holds after a message and its own checksum have gone through it. */
  const RESIDUE: bv32 := Steps(SEED, 32)

  /** Checking the trailing checksum is running the register over the whole frame. */
  lemma {:induction false} Residue(frame: seq<bv8>)
    requires |frame| >= 4
    ensures SelfChecking(frame) <==> Register(SEED, frame) == RESIDUE
  {
    hide Step, Steps, Xor, Le32, U32, Register;
    var message, tail := frame[..|frame| - 4], frame[|frame| - 4..];
    var r, w := Register(SEED, message), U32(tail);
    assert frame == message + tail;
    RegisterConcat(SEED, message, tail);
    Le32OfU32(tail);
    RegisterOfWord(r, w);
    if w == Xor(r, SEED) {
      XorAssociative(r, r, SEED);
      XorSelf(r);
      XorCommutes(0, SEED);
      XorZero(SEED);
    }
    if Steps(Xor(r, w), 32) == Steps(SEED, 32) {
      StepsInjective(Xor(r, w), SEED, 32);
      XorAssociative(r, r, w);
      XorSelf(r);
      XorCommutes(0, w);
      XorZero(w);
    }
  }

  /** `x` and `y` have the same length and agree outside the four bytes at `at`. */
  predicate DifferWithin(x: seq<bv8>, y: seq<bv8>, at: nat) {
    && |x| == |y| && at + 4 <= |x|
    && x[..at] == y[..at] && x[at + 4..] == y[at + 4..]
  }

  /** An error burst of up to four consecutive bytes always changes the register. */
  lemma {:induction false} BurstChangesRegister(x: seq<bv8>, y: seq<bv8>, at: nat)
    requires DifferWithin(x, y, at)
    requires Register(SEED, x) == Register(SEED, y)
    ensures x == y
  {
    hide Step, Steps, Xor, Le32, U32, Register;
    var front, back := x[..at], x[at + 4..];
    var u, v := x[at..at + 4], y[at..at + 4];
    assert x == front + (u + back) && y == front + (v + back);
    RegisterConcat(SEED, front, u + back);
    RegisterConcat(SEED, front, v + back);
    var c := Register(SEED, front);
    RegisterConcat(c, u, back);
    RegisterConcat(c, v, back);
    RegisterInjective(Register(c, u), Register(c, v), back);
    Le32OfU32(u);
    Le32OfU32(v);
    RegisterOfWord(c, U32(u));
    RegisterOfWord(c, U32(v));
    StepsInjective(Xor(c, U32(u)), Xor(c, U32(v)), 32);
    XorCommutes(c, U32(u));
    XorCommutes(c, U32(v));
    XorCancels(U32(u), U32(v), c);
  }
}
