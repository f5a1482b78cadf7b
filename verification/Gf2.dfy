/**
 Polynomials over GF(2), as the finite set of exponents whose coefficient is one.  This is the
 definition of the checksum that knows nothing of registers or tables: the remainder of the
 message polynomial by the generator (section 8.1.1.6.2 of ITU-T V.42).
 */
module Gf2 {
  import opened Bits
  import opened Crc32

  type Poly = set<nat>

  function Add(p: Poly, q: Poly): Poly {
    (p - q) + (q - p)
  }

  function MulX(p: Poly): Poly {
    set e | e in p :: e + 1
  }

  /** p * x^n */
  function Shift(p: Poly, n: nat): Poly {
    if n == 0 then p else MulX(Shift(p, n - 1))
  }

  function Unit(b: bool): Poly {
    if b then {0} else {}
  }

  /** The polynomial whose coefficients are `bits`, highest exponent first. */
  function OfBits(bits: seq<bool>): Poly {
    if bits == [] then {} else Add(MulX(OfBits(bits[..|bits| - 1])), Unit(bits[|bits| - 1]))
  }

  /** x^32 + x^26 + x^23 + x^22 + x^16 + x^12 + x^11 + x^10 + x^8 + x^7 + x^5 + x^4 + x^2 + x + 1 */
  const G: Poly := {32, 26, 23, 22, 16, 12, 11, 10, 8, 7, 5, 4, 2, 1, 0}

  function GIf(b: bool): Poly {
    if b then G else {}
  }

  /** The product of the generator and the polynomial with coefficients `q`. */
  function MulG(q: seq<bool>): Poly {
    if q == [] then {} else Add(MulX(MulG(q[..|q| - 1])), GIf(q[|q| - 1]))
  }

  /** Degree below 32. */
  predicate Short(p: Poly) {
    forall e | e in p :: e < 32
  }

  /** `r` is what is left of `p` when a multiple of the generator has been taken off. */
  ghost predicate IsRemainder(p: Poly, r: Poly) {
    && Short(r)
    && exists q: seq<bool> :: p == Add(MulG(q), r)
  }

  // ------------------------------------------------------------------------------------------
  // The remainder is unique
  // ------------------------------------------------------------------------------------------

  function XorBits(p: seq<bool>, q: seq<bool>): (r: seq<bool>)
    requires |p| == |q|
    ensures |r| == |p| && forall i | 0 <= i < |p| :: r[i] == (p[i] != q[i])
  {
    seq(|p|, i requires 0 <= i < |p| => p[i] != q[i])
  }

  lemma MulXLinear(p: Poly, q: Poly)
    ensures MulX(Add(p, q)) == Add(MulX(p), MulX(q))
  {
    forall e: nat
      ensures e in MulX(Add(p, q)) <==> e in Add(MulX(p), MulX(q))
    {
      assert forall s: Poly :: e in MulX(s) <==> e > 0 && e - 1 in s;
    }
  }

  lemma LastOfXor(p: seq<bool>, q: seq<bool>)
    requires |p| == |q| > 0
    ensures XorBits(p, q)[..|p| - 1] == XorBits(p[..|p| - 1], q[..|q| - 1])
    ensures GIf(XorBits(p, q)[|p| - 1]) == Add(GIf(p[|p| - 1]), GIf(q[|q| - 1]))
  {}

  lemma AddFour(a: Poly, b: Poly, c: Poly, d: Poly)
    ensures Add(Add(a, b), Add(c, d)) == Add(Add(a, c), Add(b, d))
  {}

  lemma {:induction false} MulGLinear(p: seq<bool>, q: seq<bool>)
    requires |p| == |q|
    ensures MulG(XorBits(p, q)) == Add(MulG(p), MulG(q))
  {
    hide Add, MulX, GIf;
    if p == [] {
      NoMultiple();
    } else {
      var p', q' := p[..|p| - 1], q[..|q| - 1];
      MulGLinear(p', q');
      MulXLinear(MulG(p'), MulG(q'));
      LastOfXor(p, q);
      AddFour(MulX(MulG(p')), MulX(MulG(q')), GIf(p[|p| - 1]), GIf(q[|q| - 1]));
    }
  }

  lemma NoMultiple()
    ensures Add({}, {}) == {}
  {}

  lemma {:induction false} MulGOfZeros(q: seq<bool>)
    requires true !in q
    ensures MulG(q) == {}
  {
    if q != [] {
      MulGOfZeros(q[..|q| - 1]);
    }
  }

  /** A multiple of the generator that is not zero has an exponent of 32 or more. */
  lemma {:induction false} MultipleIsLong(q: seq<bool>) returns (e: nat)
    requires true in q
    ensures e in MulG(q) && e >= 32
  {
    var front := q[..|q| - 1];
    if true in front {
      var d := MultipleIsLong(front);
      e := d + 1;
      assert e in MulX(MulG(front)) && e !in G;
    } else {
      MulGOfZeros(front);
      e := 32;
    }
  }

  lemma {:induction false} MulGLeadingZero(q: seq<bool>)
    ensures MulG([false] + q) == MulG(q)
  {
    if q == [] {
      assert ([false] + q)[..0] == [];
    } else {
      MulGLeadingZero(q[..|q| - 1]);
      assert ([false] + q)[..|q|] == [false] + q[..|q| - 1];
    }
  }

  lemma SameMember(p: Poly, r: Poly, q: Poly, s: Poly, e: nat)
    requires Add(p, r) == Add(q, s)
    ensures (e in Add(p, q)) == (e in Add(r, s))
  {
    assert e in Add(p, r) <==> e in Add(q, s);
  }

  lemma {:induction false} RemainderOfEqualLength(p: seq<bool>, q: seq<bool>, r: Poly, s: Poly)
    requires |p| == |q| && Add(MulG(p), r) == Add(MulG(q), s)
    requires Short(r) && Short(s)
    ensures r == s
  {
    var d := XorBits(p, q);
    MulGLinear(p, q);
    if true in d {
      var e := MultipleIsLong(d);
      SameMember(MulG(p), r, MulG(q), s, e);
      assert false;
    } else {
      MulGOfZeros(d);
      forall e
        ensures e in r <==> e in s
      {
        SameMember(MulG(p), r, MulG(q), s, e);
      }
    }
  }

  lemma {:induction false} RemainderAny(p: seq<bool>, q: seq<bool>, r: Poly, s: Poly)
    requires Add(MulG(p), r) == Add(MulG(q), s)
    requires Short(r) && Short(s)
    ensures r == s
    decreases |p| + |q| + (if |p| < |q| then |q| - |p| else |p| - |q|) * 2
  {
    if |p| < |q| {
      MulGLeadingZero(p);
      RemainderAny([false] + p, q, r, s);
    } else if |p| > |q| {
      MulGLeadingZero(q);
      RemainderAny(p, [false] + q, r, s);
    } else {
      RemainderOfEqualLength(p, q, r, s);
    }
  }

  lemma {:induction false} RemainderUnique(p: Poly, r: Poly, s: Poly)
    requires IsRemainder(p, r) && IsRemainder(p, s)
    ensures r == s
  {
    var q :| p == Add(MulG(q), r);
    var q' :| p == Add(MulG(q'), s);
    RemainderAny(q, q', r, s);
  }

  // ------------------------------------------------------------------------------------------
  // The register holds the remainder
  // ------------------------------------------------------------------------------------------

  /** The polynomial in the register: bit 31 - k is the coefficient of x^k. */
  ghost function OfRegister(c: bv32): Poly {
    set j: nat | j < 32 && Bit(c, j) :: 31 - j
  }

  /** One message bit enters at the coefficient of x^31 and the register steps. */
  function BitStep(c: bv32, m: bool): bv32 {
    Step(Xor(c, if m then 1 else 0))
  }

  function BitRegister(c: bv32, bits: seq<bool>): bv32 {
    if bits == [] then c else BitStep(BitRegister(c, bits[..|bits| - 1]), bits[|bits| - 1])
  }

  /** The quotient bits: what drops out of the register, combined with the message bit. */
  ghost function Quotient(c: bv32, bits: seq<bool>): seq<bool> {
    if bits == [] then []
    else
      var front := bits[..|bits| - 1];
      Quotient(c, front) + [Bit(BitRegister(c, front), 0) != bits[|bits| - 1]]
  }

  lemma GeneratorTable()
    ensures !Bit(0xEDB8_8320, 0) && !Bit(0xEDB8_8320, 1) && !Bit(0xEDB8_8320, 2) && !Bit(0xEDB8_8320, 3)
    ensures !Bit(0xEDB8_8320, 4) && Bit(0xEDB8_8320, 5) && !Bit(0xEDB8_8320, 6) && !Bit(0xEDB8_8320, 7)
    ensures Bit(0xEDB8_8320, 8) && Bit(0xEDB8_8320, 9) && !Bit(0xEDB8_8320, 10) && !Bit(0xEDB8_8320, 11)
    ensures !Bit(0xEDB8_8320, 12) && !Bit(0xEDB8_8320, 13) && !Bit(0xEDB8_8320, 14) && Bit(0xEDB8_8320, 15)
    ensures !Bit(0xEDB8_8320, 16) && !Bit(0xEDB8_8320, 17) && !Bit(0xEDB8_8320, 18) && Bit(0xEDB8_8320, 19)
    ensures Bit(0xEDB8_8320, 20) && Bit(0xEDB8_8320, 21) && !Bit(0xEDB8_8320, 22) && Bit(0xEDB8_8320, 23)
    ensures Bit(0xEDB8_8320, 24) && !Bit(0xEDB8_8320, 25) && Bit(0xEDB8_8320, 26) && Bit(0xEDB8_8320, 27)
    ensures !Bit(0xEDB8_8320, 28) && Bit(0xEDB8_8320, 29) && Bit(0xEDB8_8320, 30) && Bit(0xEDB8_8320, 31)
  {}

  lemma GeneratorBits(k: nat)
    requires k < 32
    ensures Bit(0xEDB8_8320, 31 - k) <==> k in G
  {
    hide Bit;
    GeneratorTable();
  }

  lemma MemberOfRegister(c: bv32, k: nat)
    ensures k in OfRegister(c) <==> k < 32 && Bit(c, 31 - k)
  {
    hide Bit;
    if k < 32 && Bit(c, 31 - k) {
      assert 31 - (31 - k) == k;
    }
  }

  lemma LowBits(c: bv32, m: bool)
    ensures var d := Xor(c, if m then 1 else 0);
            && Feedback(d) == (if Bit(c, 0) != m then 0xEDB8_8320 else 0)
            && Half(d) == Half(c)
  {}

  lemma {:induction false} MemberOfBitStep(c: bv32, m: bool, k: nat)
    ensures k in OfRegister(BitStep(c, m)) <==>
                k < 32 && ((k > 0 && k - 1 in OfRegister(c)) != (Bit(c, 0) != m && k in G))
  {
    hide Bit, Xor, Half, Feedback, OfRegister;
    var f := if Bit(c, 0) != m then 0xEDB8_8320 else 0;
    LowBits(c, m);
    MemberOfRegister(Xor(Half(c), f), k);
    if k > 0 {
      MemberOfRegister(c, k - 1);
    }
    if k < 32 {
      BitXor(Half(c), f, 31 - k);
      BitHalf(c, 31 - k);
      GeneratorBits(k);
      BitOfZero(31 - k);
    }
  }

  /** A step of the register is: times x, plus the message bit at x^32, modulo the generator. */
  lemma {:induction false} BitStepReduces(c: bv32, m: bool)
    ensures Add(OfRegister(BitStep(c, m)), GIf(Bit(c, 0) != m)) == Add(MulX(OfRegister(c)), if m then {32} else {})
  {
    hide Bit, BitStep, OfRegister;
    var stepped := Add(OfRegister(BitStep(c, m)), GIf(Bit(c, 0) != m));
    var shifted := Add(MulX(OfRegister(c)), if m then {32} else {});
    forall k: nat
      ensures k in stepped <==> k in shifted
    {
      MemberOfBitStep(c, m, k);
      assert k in MulX(OfRegister(c)) <==> k > 0 && k - 1 in OfRegister(c);
      if k >= 32 {
        MemberOfRegister(c, k);
        MemberOfRegister(c, k - 1);
      }
    }
  }

  lemma ShiftLast(p: Poly, n: nat)
    ensures Shift(p, n + 1) == MulX(Shift(p, n))
  {}

  /** The dividend: the message times x^32, with the initial register times x^|message|. */
  ghost function Dividend(c: bv32, bits: seq<bool>): Poly {
    Add(Shift(OfBits(bits), 32), Shift(OfRegister(c), |bits|))
  }

  lemma {:induction false} ShiftLinear(p: Poly, q: Poly, n: nat)
    ensures Shift(Add(p, q), n) == Add(Shift(p, n), Shift(q, n))
  {
    if n > 0 {
      ShiftLinear(p, q, n - 1);
      MulXLinear(Shift(p, n - 1), Shift(q, n - 1));
    }
  }

  lemma {:induction false} ShiftMulX(p: Poly, n: nat)
    ensures Shift(MulX(p), n) == MulX(Shift(p, n))
  {
    if n > 0 {
      ShiftMulX(p, n - 1);
    }
  }

  lemma {:induction false} ShiftUnit(n: nat)
    ensures Shift({0}, n) == {n} && Shift({}, n) == {}
  {
    if n > 0 {
      ShiftUnit(n - 1);
    }
  }

  lemma {:induction false} DividendSnoc(c: bv32, bits: seq<bool>)
    requires bits != []
    ensures Dividend(c, bits) == Add(MulX(Dividend(c, bits[..|bits| - 1])), if bits[|bits| - 1] then {32} else {})
  {
    hide OfRegister;
    var front, m := bits[..|bits| - 1], bits[|bits| - 1];
    var p, r := OfBits(front), OfRegister(c);
    ShiftLinear(MulX(p), Unit(m), 32);
    ShiftMulX(p, 32);
    ShiftUnit(32);
    ShiftLast(r, |front|);
    MulXLinear(Shift(p, 32), Shift(r, |front|));
    assert Shift(OfBits(bits), 32) == Add(MulX(Shift(p, 32)), if m then {32} else {});
  }

  /** Running the register divides: dividend = quotient * G + register. */
  lemma {:induction false} RegisterDivides(c: bv32, bits: seq<bool>)
    ensures |Quotient(c, bits)| == |bits|
    ensures Dividend(c, bits) == Add(MulG(Quotient(c, bits)), OfRegister(BitRegister(c, bits)))
  {
    hide OfRegister, BitStep, Bit;
    if bits != [] {
      var front, m := bits[..|bits| - 1], bits[|bits| - 1];
      var q, s := Quotient(c, front), BitRegister(c, front);
      var t := Bit(s, 0) != m;
      RegisterDivides(c, front);
      DividendSnoc(c, bits);
      BitStepReduces(s, m);
      MulXLinear(MulG(q), OfRegister(s));
      assert Quotient(c, bits)[..|bits| - 1] == q;
      var a, b, d, e := MulX(MulG(q)), MulX(OfRegister(s)), GIf(t), OfRegister(BitStep(s, m));
      var u: Poly := if m then {32} else {};
      assert Add(e, d) == Add(b, u);
      assert Add(Add(a, b), u) == Add(Add(a, d), e) by {
        Regroup(a, b, u, d, e);
      }
    } else {
      assert Shift({}, 32) == {} by { ShiftUnit(32); }
    }
  }

  lemma Regroup(a: Poly, b: Poly, u: Poly, d: Poly, e: Poly)
    requires Add(e, d) == Add(b, u)
    ensures Add(Add(a, b), u) == Add(Add(a, d), e)
  {
    forall k
      ensures k in Add(Add(a, b), u) <==> k in Add(Add(a, d), e)
    {
      assert k in Add(e, d) <==> k in Add(b, u);
    }
  }

  // ------------------------------------------------------------------------------------------
  // Bytes
  // ------------------------------------------------------------------------------------------

  /** The low `n` bits of `x`, least significant first. */
  function LowBitsOf(x: bv32, n: nat): seq<bool>
    decreases n
  {
    if n == 0 then [] else [x & 1 == 1] + LowBitsOf(Half(x), n - 1)
  }

  /** The order in which the register sees the bits of a message. */
  function BitsOf(data: seq<bv8>): seq<bool> {
    if data == [] then [] else BitsOf(data[..|data| - 1]) + LowBitsOf(data[|data| - 1] as bv32, 8)
  }

  lemma {:induction false} BitRegisterConcat(c: bv32, x: seq<bool>, y: seq<bool>)
    ensures BitRegister(c, x + y) == BitRegister(BitRegister(c, x), y)
  {
    hide BitStep;
    if y == [] {
      assert x + y == x;
    } else {
      assert (x + y)[..|x + y| - 1] == x + y[..|y| - 1];
      BitRegisterConcat(c, x, y[..|y| - 1]);
    }
  }

  lemma LowBitApart(x: bv32)
    ensures (x & 0xFFFF_FFFE) & 1 == 0 && Half(x & 0xFFFF_FFFE) == Half(x)
    ensures x & 1 == if x & 1 == 1 then 1 else 0
  {}

  lemma LowBitBack(x: bv32)
    ensures Xor(x & 0xFFFF_FFFE, x & 1) == x
  {}

  lemma {:induction false} SplitLowBit(c: bv32, x: bv32)
    ensures (x & 0xFFFF_FFFE) & 1 == 0 && Half(x & 0xFFFF_FFFE) == Half(x)
    ensures Xor(x & 0xFFFF_FFFE, Xor(c, if x & 1 == 1 then 1 else 0)) == Xor(c, x)
  {
    hide Xor, Half;
    var high, low := x & 0xFFFF_FFFE, if x & 1 == 1 then 1 else 0;
    LowBitApart(x);
    LowBitBack(x);
    XorCommutes(c, low);
    XorAssociative(high, low, c);
    XorCommutes(x, c);
  }

  /** Feeding `n` bits one at a time, or all at once before `n` steps: what is left over is the rest of `x`. */
  lemma {:induction false} BitsAtOnce(c: bv32, x: bv32, n: nat)
    ensures Steps(Xor(c, x), n) == Xor(Halves(x, n), BitRegister(c, LowBitsOf(x, n)))
    decreases n
  {
    hide Xor, Half, Step;
    if n == 0 {
      XorCommutes(c, x);
    } else {
      var m := x & 1 == 1;
      var first := BitStep(c, m);
      SplitLowBit(c, x);
      StepSlides(x & 0xFFFF_FFFE, Xor(c, if m then 1 else 0));
      XorCommutes(Half(x), first);
      BitsAtOnce(first, Half(x), n - 1);
      BitRegisterConcat(c, [m], LowBitsOf(Half(x), n - 1));
      assert [m][..0] == [];
      assert BitRegister(c, [m]) == BitStep(BitRegister(c, []), m);
    }
  }

  lemma {:induction false} ByteStepIsBitwise(c: bv32, b: bv8)
    ensures ByteStep(c, b) == BitRegister(c, LowBitsOf(b as bv32, 8))
  {
    hide Xor, Half, Step, Steps, BitRegister, LowBitsOf;
    BitsAtOnce(c, b as bv32, 8);
    ByteShiftsOut(b);
    XorCommutes(0, BitRegister(c, LowBitsOf(b as bv32, 8)));
    XorZero(BitRegister(c, LowBitsOf(b as bv32, 8)));
  }

  lemma {:induction false} ByteShiftsOut(b: bv8)
    ensures Halves(b as bv32, 8) == 0
  {
    hide Half;
    var x := b as bv32;
    HalvesOfShifts(x);
    assert x >> 8 == 0;
    assert Halves(x >> 7, 1) == x >> 8;
    assert Halves(x >> 6, 2) == x >> 8;
    assert Halves(x >> 5, 3) == x >> 8;
    assert Halves(x >> 4, 4) == x >> 8;
    assert Halves(x >> 3, 5) == x >> 8;
    assert Halves(x >> 2, 6) == x >> 8;
    assert Halves(x >> 1, 7) == x >> 8;
  }

  lemma {:induction false} RegisterIsBitwise(c: bv32, data: seq<bv8>)
    ensures Register(c, data) == BitRegister(c, BitsOf(data))
  {
    hide ByteStep, LowBitsOf, BitStep;
    if data != [] {
      var front, b := data[..|data| - 1], data[|data| - 1];
      RegisterIsBitwise(c, front);
      ByteStepIsBitwise(Register(c, front), b);
      BitRegisterConcat(c, BitsOf(front), LowBitsOf(b as bv32, 8));
    }
  }

  // ------------------------------------------------------------------------------------------
  // The checksum
  // ------------------------------------------------------------------------------------------

  /**
   The checksum, complemented, is the remainder of the message polynomial by the generator, the
   first 32 message bits being complemented too (the seed of all ones).
   */
  lemma {:induction false} ChecksumIsRemainder(data: seq<bv8>, sum: bv32)
    ensures sum == Checksum(data) <==> IsRemainder(Dividend(SEED, BitsOf(data)), OfRegister(Xor(sum, SEED)))
  {
    hide Xor, Bit, Register, BitRegister, BitsOf, Dividend, OfRegister;
    var p, reg := Dividend(SEED, BitsOf(data)), Register(SEED, data);
    RegisterIsBitwise(SEED, data);
    RegisterDivides(SEED, BitsOf(data));
    RegisterIsShort(reg);
    assert IsRemainder(p, OfRegister(reg));
    XorAssociative(reg, SEED, SEED);
    XorAssociative(sum, SEED, SEED);
    XorSelf(SEED);
    XorZero(reg);
    XorZero(sum);
    if IsRemainder(p, OfRegister(Xor(sum, SEED))) {
      RemainderUnique(p, OfRegister(reg), OfRegister(Xor(sum, SEED)));
      OfRegisterInjective(reg, Xor(sum, SEED));
    }
  }

  lemma RegisterIsShort(c: bv32)
    ensures Short(OfRegister(c))
  {
    hide Bit;
  }

  lemma {:induction false} OfRegisterInjective(c: bv32, d: bv32)
    requires OfRegister(c) == OfRegister(d)
    ensures c == d
  {
    hide Bit, OfRegister;
    forall j: nat | j < 32
      ensures Bit(c, j) == Bit(d, j)
    {
      MemberOfRegister(c, 31 - j);
      MemberOfRegister(d, 31 - j);
    }
    BitsDetermine(c, d);
  }
}
