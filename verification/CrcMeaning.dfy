/**
  Which checksum it is: CRC32C as section 12.1 of RFC 3720 defines it, by long division of polynomials over two
  elements, with no shift register and no reflected constant. A polynomial is its coefficients, highest first.
 */
module CrcMeaning {
  import opened Base
  import opened Crc32c

  // ----- the definition

  /** The `n` binary digits of `v`, highest first. */
  function Digits(v: nat, n: nat): (p: seq<bool>)
    ensures |p| == n
  {
    if n == 0 then [] else Digits(v / 2, n - 1) + [v % 2 == 1]
  }

  function Add(p: seq<bool>, q: seq<bool>): (r: seq<bool>)
    requires |p| == |q|
    ensures |r| == |p| && forall i :: 0 <= i < |p| ==> r[i] == (p[i] != q[i])
  {
    seq(|p|, i requires 0 <= i < |p| => p[i] != q[i])
  }

  /** The generator, of degree 32. */
  function Generator(): (g: seq<bool>)
    ensures |g| == 33
  {
    Digits(0x1_1EDC_6F41, 33)
  }

  /** The remainder of long division by the generator. */
  function Remainder(p: seq<bool>): (r: seq<bool>)
    requires |p| >= 32
    ensures |r| == 32
    decreases |p|
  {
    if |p| == 32 then p else Remainder(DivisionStep(p, Generator()))
  }

  /** Subtract the generator under a leading one, and go on behind the leading place. */
  function DivisionStep(p: seq<bool>, g: seq<bool>): (r: seq<bool>)
    requires |p| > 32 && |g| == 33
    ensures |r| == |p| - 1
    ensures forall i :: 0 <= i < |r| ==> r[i] == if i < 32 && p[0] then p[i + 1] != g[i + 1] else p[i + 1]
  {
    seq(|p| - 1, i requires 0 <= i < |p| - 1 => if i < 32 && p[0] then p[i + 1] != g[i + 1] else p[i + 1])
  }

  /** A message as a polynomial: bytes in order, each from its low bit up. */
  function MessageBits(s: bytes): seq<bool> {
    if s == [] then [] else MessageBits(s[..|s| - 1]) + ByteBits(s[|s| - 1], 8)
  }

  function ByteBits(b: nat, n: nat): (p: seq<bool>)
    ensures |p| == n
  {
    if n == 0 then [] else [b % 2 == 1] + ByteBits(b / 2, n - 1)
  }

  function All(n: nat, v: bool): (p: seq<bool>)
    ensures |p| == n && forall i :: 0 <= i < n ==> p[i] == v
  {
    seq(n, _ => v)
  }

  /** `p` with `q` added to its first coefficients. */
  function Front(p: seq<bool>, q: seq<bool>): (r: seq<bool>)
    requires |q| <= |p|
    ensures |r| == |p|
    ensures forall i :: 0 <= i < |p| ==> r[i] == if i < |q| then p[i] != q[i] else p[i]
  {
    Add(p[..|q|], q) + p[|q|..]
  }

  function Complement(p: seq<bool>): seq<bool> { Add(p, All(|p|, true)) }

  // ----- the register, as coefficients

  /** The bits of a word from the low end, which in the reflected register is the highest coefficient. */
  function Bits(c: bv32, n: nat): (p: seq<bool>)
    ensures |p| == n
  {
    if n == 0 then [] else [Odd(c)] + Bits(Half(c), n - 1)
  }

  function Unit(b: bool): bv32 { if b then 1 else 0 }

  function Halves(c: bv32, n: nat): bv32 { if n == 0 then c else Halves(Half(c), n - 1) }

  /** One message bit against the register. */
  function StepBits(r: seq<bool>, b: bool): (r': seq<bool>)
    requires |r| == 32
    ensures |r'| == 32
  {
    Add(r[1..] + [false], if r[0] != b then Generator()[1..] else All(32, false))
  }

  function RunBits(r: seq<bool>, m: seq<bool>): (r': seq<bool>)
    requires |r| == 32
    ensures |r'| == 32
    decreases |m|
  {
    if m == [] then r else RunBits(StepBits(r, m[0]), m[1..])
  }

  // ----- division is the register

  lemma GeneratorLeads()
    ensures Generator()[0]
  {
    hide Digits, TwoTo;
    TwoPower32();
    DigitsTop(0x1_1EDC_6F41, 33);
  }

  function TwoTo(n: nat): nat { if n == 0 then 1 else 2 * TwoTo(n - 1) }

  lemma TwoPower32()
    ensures TwoTo(32) == 0x1_0000_0000 && TwoTo(33) == 0x2_0000_0000
  {
    assert TwoTo(8) == 0x100;
    assert TwoTo(16) == 0x1_0000;
    assert TwoTo(24) == 0x100_0000;
  }

  lemma {:induction false} DigitsTop(v: nat, n: nat)
    requires n > 0 && v < TwoTo(n)
    ensures Digits(v, n)[0] <==> v >= TwoTo(n - 1)
  {
    if n > 1 { DigitsTop(v / 2, n - 1); }
  }

  /** Dividing a message shifted up by 32 places, with `r` added in front, is feeding it to the register at `r`. */
  lemma {:induction false} RemainderIsRegister(m: seq<bool>, r: seq<bool>)
    requires |r| == 32
    ensures Remainder(Front(m + All(32, false), r)) == RunBits(r, m)
    decreases |m|
  {
    hide Generator, StepBits, DivisionStep, Front;
    if m == [] {
      FrontOfNothing(r);
      assert m + All(32, false) == All(32, false);
    } else {
      DivisionIsStep(m, r);
      RemainderIsRegister(m[1..], StepBits(r, m[0]));
    }
  }

  lemma FrontOfNothing(r: seq<bool>)
    requires |r| == 32
    ensures Front(All(32, false), r) == r
  {}

  lemma DivisionIsStep(m: seq<bool>, r: seq<bool>)
    requires |r| == 32 && m != []
    ensures DivisionStep(Front(m + All(32, false), r), Generator()) == Front(m[1..] + All(32, false), StepBits(r, m[0]))
  {
    hide Generator, Front, DivisionStep;
    GeneratorLeads();
    var p, q, g := Front(m + All(32, false), r), Front(m[1..] + All(32, false), StepBits(r, m[0])), Generator();
    var next := DivisionStep(p, g);
    forall i | 0 <= i < |q|
      ensures next[i] == q[i]
    {
      assert next[i] == if i < 32 && p[0] then p[i + 1] != g[i + 1] else p[i + 1];
      assert (m + All(32, false))[i + 1] == (m[1..] + All(32, false))[i];
      if i < 32 { assert (r[1..] + [false])[i] == if i < 31 then r[i + 1] else false; }
    }
  }

  lemma {:induction false} RunBitsConcat(r: seq<bool>, m: seq<bool>, n: seq<bool>)
    requires |r| == 32
    ensures RunBits(r, m + n) == RunBits(RunBits(r, m), n)
    decreases |m|
  {
    hide StepBits;
    if m == [] {
      assert m + n == n;
    } else {
      assert (m + n)[1..] == m[1..] + n;
      RunBitsConcat(StepBits(r, m[0]), m[1..], n);
    }
  }

  // ----- the register is the word

  lemma XorOnes(a: bv32, b: bv32)
    ensures Odd(Xor(a, b)) == (Odd(a) != Odd(b)) && Half(Xor(a, b)) == Xor(Half(a), Half(b))
  {}

  lemma {:induction false} BitsXor(a: bv32, b: bv32, n: nat)
    ensures Bits(Xor(a, b), n) == Add(Bits(a, n), Bits(b, n))
    decreases n
  {
    hide Xor, Odd, Half;
    if n > 0 {
      XorOnes(a, b);
      BitsXor(Half(a), Half(b), n - 1);
    }
  }

  lemma {:induction false} BitsZero(n: nat)
    ensures Bits(0, n) == All(n, false)
  {
    if n > 0 { BitsZero(n - 1); }
  }

  lemma {:induction false} BitsLast(c: bv32, n: nat)
    ensures Bits(c, n + 1) == Bits(c, n) + [Odd(Halves(c, n))]
    decreases n
  {
    hide Odd, Half;
    if n > 0 { BitsLast(Half(c), n - 1); }
  }

  function Down8(c: bv32): bv32 { c >> 8 }

  lemma HalvesFirst(c: bv32, n: nat)
    ensures Halves(c, n + 1) == Halves(Half(c), n) && Halves(c, 0) == c
  {}

  lemma Halves8(c: bv32)
    ensures Halves(c, 8) == Down8(c)
  {
    hide Half, Halves, Down8;
    EightHalves(c);
    var c4 := Half(Half(Half(Half(c))));
    HalvesFirst(c, 7);
    HalvesFirst(Half(c), 6);
    HalvesFirst(Half(Half(c)), 5);
    HalvesFirst(Half(Half(Half(c))), 4);
    HalvesFirst(c4, 3);
    HalvesFirst(Half(c4), 2);
    HalvesFirst(Half(Half(c4)), 1);
    HalvesFirst(Half(Half(Half(c4))), 0);
    HalvesFirst(Half(Half(Half(Half(c4)))), 0);
  }

  lemma EightHalves(c: bv32)
    ensures Half(Half(Half(Half(Half(Half(Half(Half(c)))))))) == Down8(c)
  {}

  lemma {:induction false} HalvesAdd(c: bv32, m: nat, n: nat)
    ensures Halves(c, m + n) == Halves(Halves(c, m), n)
    decreases m
  {
    hide Half;
    if m > 0 { HalvesAdd(Half(c), m - 1, n); }
  }

  lemma AllShiftedOut(c: bv32)
    ensures Halves(c, 32) == 0
  {
    hide Halves, Down8;
    HalvesAdd(c, 8, 24);
    HalvesAdd(Halves(c, 8), 8, 16);
    HalvesAdd(Halves(Halves(c, 8), 8), 8, 8);
    Halves8(c);
    Halves8(Down8(c));
    Halves8(Down8(Down8(c)));
    Halves8(Down8(Down8(Down8(c))));
    FourBytesOut(c);
  }

  lemma FourBytesOut(c: bv32)
    ensures Down8(Down8(Down8(Down8(c)))) == 0
  {}

  lemma BitsHalf(c: bv32)
    ensures Bits(Half(c), 32) == Bits(c, 32)[1..] + [false]
  {
    hide Half, Odd, Halves, Bits;
    BitsLast(c, 32);
    AllShiftedOut(c);
    ZeroIsEven();
    BitsFirst(c, 32);
    assert Bits(Half(c), 32) == Bits(c, 33)[1..];
  }

  lemma BitsFirst(c: bv32, n: nat)
    ensures Bits(c, n + 1) == [Odd(c)] + Bits(Half(c), n)
  {}

  lemma ZeroIsEven()
    ensures !Odd(0)
  {}

  // ----- the reflected constant spells the generator

  lemma {:induction false} DigitsSplit(hi: nat, lo: nat, m: nat, n: nat)
    requires lo < TwoTo(n)
    ensures Digits(hi * TwoTo(n) + lo, m + n) == Digits(hi, m) + Digits(lo, n)
    decreases n
  {
    if n > 0 {
      var t := TwoTo(n - 1);
      TwiceTimes(hi, t);
      assert (hi * TwoTo(n) + lo) / 2 == hi * t + lo / 2 && (hi * TwoTo(n) + lo) % 2 == lo % 2;
      DigitsSplit(hi, lo / 2, m, n - 1);
    }
  }

  lemma TwiceTimes(hi: nat, t: nat)
    ensures hi * (2 * t) == 2 * (hi * t)
  {}

  function Down4(c: bv32): bv32 { c >> 4 }

  lemma Bits4(c: bv32, n: nat)
    ensures Bits(c, n + 4) == Bits(c, 4) + Bits(Down4(c), n)
  {
    hide Half, Down4, Bits;
    FourHalves(c);
    FirstFour(c, n);
    FirstFour(c, 0);
    NoBitsLeft(Down4(c));
  }

  lemma NoBitsLeft(c: bv32)
    ensures Bits(c, 0) == []
  {}

  lemma FirstFour(c: bv32, n: nat)
    ensures Bits(c, n + 4) == [Odd(c), Odd(Half(c)), Odd(Half(Half(c))), Odd(Half(Half(Half(c))))]
                              + Bits(Half(Half(Half(Half(c)))), n)
  {
    hide Half, Odd, Bits;
    BitsFirst(c, n + 3);
    BitsFirst(Half(c), n + 2);
    BitsFirst(Half(Half(c)), n + 1);
    BitsFirst(Half(Half(Half(c))), n);
  }

  lemma FourHalves(c: bv32)
    ensures Half(Half(Half(Half(c)))) == Down4(c)
  {}

  lemma FourDigits(d: nat)
    ensures Digits(d, 4) == [d / 8 % 2 == 1, d / 4 % 2 == 1, d / 2 % 2 == 1, d % 2 == 1]
  {
    assert d / 2 / 2 == d / 4 && d / 4 / 2 == d / 8;
    assert Digits(d / 8, 1) == [d / 8 % 2 == 1];
    assert Digits(d / 4, 2) == Digits(d / 8, 1) + [d / 4 % 2 == 1];
    assert Digits(d / 2, 3) == Digits(d / 4, 2) + [d / 2 % 2 == 1];
  }

  /** The low four bits of `c`, read upwards, are the digit `d`, read downwards. */
  predicate Mirrors(c: bv32, d: nat) {
    && Odd(c) == (d / 8 % 2 == 1) && Odd(Half(c)) == (d / 4 % 2 == 1)
    && Odd(Half(Half(c))) == (d / 2 % 2 == 1) && Odd(Half(Half(Half(c)))) == (d % 2 == 1)
  }

  /** One more hexadecimal digit: the low one of the word, mirrored, is the next one of the number. */
  lemma Mirror(c: bv32, rest: bv32, digit: nat, lo: nat, n: nat)
    requires Down4(c) == rest && Bits(rest, n) == Digits(lo, n) && Mirrors(c, digit) && lo < TwoTo(n)
    ensures Bits(c, n + 4) == Digits(digit * TwoTo(n) + lo, n + 4)
  {
    hide Bits, Digits, Down4, TwoTo, Odd, Half;
    Bits4(c, n);
    FirstFour(c, 0);
    NoBitsLeft(Half(Half(Half(Half(c)))));
    FourDigits(digit);
    DigitsSplit(digit, lo, 4, n);
  }

  lemma MirrorDigits()
    ensures Mirrors(0x8, 0x1) && Mirrors(0x82, 0x4) && Mirrors(0x82f, 0xF) && Mirrors(0x82f6, 0x6)
    ensures Mirrors(0x8_2f63, 0xC) && Mirrors(0x82_f63b, 0xD) && Mirrors(0x82f_63b7, 0xE) && Mirrors(0x82f6_3b78, 0x1)
  {}

  lemma PowersOfSixteen()
    ensures TwoTo(0) == 1 && TwoTo(4) == 0x10 && TwoTo(8) == 0x100 && TwoTo(12) == 0x1000 && TwoTo(16) == 0x1_0000
    ensures TwoTo(20) == 0x10_0000 && TwoTo(24) == 0x100_0000 && TwoTo(28) == 0x1000_0000
  {
    TwoPower32();
    assert TwoTo(4) == 16;
  }

  lemma WordsByDigits()
    ensures Down4(0x8) == 0 && Down4(0x82) == 0x8 && Down4(0x82f) == 0x82 && Down4(0x82f6) == 0x82f
    ensures Down4(0x8_2f63) == 0x82f6 && Down4(0x82_f63b) == 0x8_2f63 && Down4(0x82f_63b7) == 0x82_f63b
    ensures Down4(0x82f6_3b78) == 0x82f_63b7
  {}

  lemma ReflectedGenerator()
    ensures Bits(0x82f6_3b78, 32) == Generator()[1..]
  {
    hide Bits, Digits, Down4, TwoTo, Mirrors, Generator;
    MirrorDigits();
    WordsByDigits();
    PowersOfSixteen();
    NothingToMirror();
    LowDigits();
    Mirror(0x8, 0, 0x1, 0, 0);
    Mirror(0x82, 0x8, 0x4, 0x1, 4);
    Mirror(0x82f, 0x82, 0xF, 0x41, 8);
    Mirror(0x82f6, 0x82f, 0x6, 0xF41, 12);
    Mirror(0x8_2f63, 0x82f6, 0xC, 0x6F41, 16);
    Mirror(0x82_f63b, 0x8_2f63, 0xD, 0xC_6F41, 20);
    Mirror(0x82f_63b7, 0x82_f63b, 0xE, 0xDC_6F41, 24);
    Mirror(0x82f6_3b78, 0x82f_63b7, 0x1, 0xEDC_6F41, 28);
  }

  lemma NothingToMirror()
    ensures Bits(0, 0) == Digits(0, 0)
  {}

  lemma LowDigits()
    ensures Generator()[1..] == Digits(0x1EDC_6F41, 32)
  {
    hide Digits, TwoTo;
    TwoPower32();
    DigitsSplit(1, 0x1EDC_6F41, 1, 32);
  }

  // ----- one bit, one byte, one message

  lemma ShiftDefined(c: bv32)
    ensures Shift(c) == Xor(Half(c), if Odd(c) then 0x82f6_3b78 else 0)
  {
    hide Xor, Odd, Half;
  }

  lemma UnitParts(b: bool)
    ensures Odd(Unit(b)) == b && Half(Unit(b)) == 0
  {}

  lemma ShiftParts(c: bv32, b: bool)
    ensures var x := Xor(c, Unit(b));
            Odd(x) == (Odd(c) != b) && Half(x) == Half(c)
            && Shift(x) == Xor(Half(x), if Odd(x) then 0x82f6_3b78 else 0)
  {
    hide *;
    XorOnes(c, Unit(b));
    UnitParts(b);
    XorZeroRight(Half(c));
    ShiftDefined(Xor(c, Unit(b)));
  }

  lemma ShiftIsStep(c: bv32, b: bool)
    ensures Bits(Shift(Xor(c, Unit(b))), 32) == StepBits(Bits(c, 32), b)
  {
    hide Shift, Xor, Odd, Half, Generator, Unit;
    var x := Xor(c, Unit(b));
    ShiftParts(c, b);
    BitsXor(Half(x), if Odd(x) then 0x82f6_3b78 else 0, 32);
    BitsHalf(c);
    BitsFirst(c, 31);
    ReflectedGenerator();
    BitsZero(32);
  }

  /** Mixing in the bits above the lowest commutes with a step. */
  lemma StepCommutes(c: bv32, w: bv32)
    ensures Shift(Xor(c, w)) == Xor(Shift(Xor(c, Unit(Odd(w)))), Half(w))
  {
    hide *;
    ShiftParts(c, Odd(w));
    ShiftDefined(Xor(c, w));
    XorOnes(c, w);
    var sel: bv32 := if Odd(c) != Odd(w) then 0x82f6_3b78 else 0;
    XorAssoc(Half(c), Half(w), sel);
    XorComm(Half(w), sel);
    XorAssoc(Half(c), sel, Half(w));
  }

  lemma {:induction false} ShiftsFront(c: bv32, n: nat)
    ensures Shifts(Shift(c), n) == Shifts(c, n + 1)
  {
    hide Shift;
    if n > 0 { ShiftsFront(c, n - 1); }
  }

  /** `n` steps of a register with `w` mixed in at once are `n` message bits taken from `w`. */
  lemma {:induction false} StepsAreBits(c: bv32, w: bv32, n: nat)
    ensures Bits(Xor(Shifts(Xor(c, w), n), Halves(w, n)), 32) == RunBits(Bits(c, 32), Bits(w, n))
    decreases n
  {
    hide Shift, Xor, Odd, Half, StepBits;
    if n == 0 {
      XorSelf(c, w);
    } else {
      var c', w' := Shift(Xor(c, Unit(Odd(w)))), Half(w);
      StepCommutes(c, w);
      ShiftIsStep(c, Odd(w));
      StepsAreBits(c', w', n - 1);
      ShiftsFront(Xor(c, w), n - 1);
      BitsFirst(w, n - 1);
      assert Bits(w, n)[1..] == Bits(w', n - 1);
    }
  }

  lemma PushBits(w: bv32, odd: bool)
    requires Fits24(w)
    ensures Odd(Push(w, odd)) == odd && Half(Push(w, odd)) == w
  {}

  /** The word whose bits are those of `v`. */
  function WordOf(v: nat, n: nat): bv32 { if n == 0 then 0 else Push(WordOf(v / 2, n - 1), v % 2 == 1) }

  lemma {:induction false} HalvesOfZero(n: nat)
    ensures Halves(0, n) == 0
  {
    if n > 0 { HalvesOfZero(n - 1); }
  }

  lemma ThreeBytesOut(c: bv32)
    ensures Down8(Down8(Down8(c))) == 0 ==> Fits24(c)
  {}

  lemma FewBitsFit(c: bv32, n: nat)
    requires n <= 24 && Halves(c, n) == 0
    ensures Fits24(c)
  {
    hide Halves, Down8, Fits24;
    HalvesAdd(c, n, 24 - n);
    HalvesOfZero(24 - n);
    HalvesAdd(c, 8, 16);
    HalvesAdd(Halves(c, 8), 8, 8);
    Halves8(c);
    Halves8(Down8(c));
    Halves8(Down8(Down8(c)));
    ThreeBytesOut(c);
  }

  lemma PushedBits(w: bv32, v: nat, n: nat)
    requires Fits24(w) && Bits(w, n) == ByteBits(v / 2, n) && Halves(w, n) == 0
    ensures var p := Push(w, v % 2 == 1);
            Bits(p, n + 1) == ByteBits(v, n + 1) && Halves(p, n + 1) == 0
  {
    hide Push, Odd, Half, Bits, Halves, Fits24;
    var p := Push(w, v % 2 == 1);
    PushBits(w, v % 2 == 1);
    BitsFirst(p, n);
    HalvesFirst(p, n);
  }

  lemma {:induction false} WordOfBits(v: nat, n: nat)
    requires n <= 24
    ensures Bits(WordOf(v, n), n) == ByteBits(v, n) && Halves(WordOf(v, n), n) == 0
    decreases n
  {
    hide Push, Odd, Half, Fits24;
    if n > 0 {
      WordOfBits(v / 2, n - 1);
      FewBitsFit(WordOf(v / 2, n - 1), n - 1);
      PushedBits(WordOf(v / 2, n - 1), v, n - 1);
    }
  }

  lemma WordOfFirst(v: nat, n: nat)
    ensures WordOf(v, n + 1) == Push(WordOf(v / 2, n), v % 2 == 1) && WordOf(v, 0) == 0
  {}

  lemma ByteHalves(v: nat)
    ensures v / 2 / 2 == v / 4 && v / 4 / 2 == v / 8 && v / 8 / 2 == v / 16 && v / 16 / 2 == v / 32
    ensures v / 32 / 2 == v / 64 && v / 64 / 2 == v / 128
  {}

  lemma WordStage(b: byte, unit: nat, v: nat, n: nat)
    requires unit > 0 && v == b / unit
    ensures WordOf(v, n + 1) == Low(WordOf(v / 2, n), b, unit)
  {
    hide Push;
  }

  lemma WordIsWordOf(b: byte)
    ensures Word(b) == WordOf(b, 8)
  {
    hide Low, WordOf;
    ByteHalves(b);
    WordStage(b, 1, b, 7);
    WordStage(b, 2, b / 2, 6);
    WordStage(b, 4, b / 4, 5);
    WordStage(b, 8, b / 8, 4);
    WordStage(b, 16, b / 16, 3);
    WordStage(b, 32, b / 32, 2);
    WordStage(b, 64, b / 64, 1);
    WordStage(b, 128, b / 128, 0);
    WordOfFirst(b / 128 / 2, 0);
  }

  /** The word of a byte holds its bits, and no others. */
  lemma WordBits(b: byte)
    ensures Bits(Word(b), 8) == ByteBits(b, 8) && Halves(Word(b), 8) == 0
  {
    hide *;
    WordIsWordOf(b);
    WordOfBits(b, 8);
  }

  lemma AbsorbIsBits(c: bv32, b: byte)
    ensures Bits(Absorb(c, b), 32) == RunBits(Bits(c, 32), ByteBits(b, 8))
  {
    hide Bits, RunBits, Halves, Word, Xor, Shifts;
    WordBits(b);
    StepsAreBits(c, Word(b), 8);
    XorZeroRight(Shifts(Xor(c, Word(b)), 8));
  }

  lemma XorZeroRight(c: bv32)
    ensures Xor(c, 0) == c
  {}

  lemma {:induction false} RunIsBits(c: bv32, s: bytes)
    ensures Bits(Run(c, s), 32) == RunBits(Bits(c, 32), MessageBits(s))
  {
    hide Bits, RunBits, Absorb, ByteBits;
    if s == [] {
      NoBits(Bits(c, 32));
    } else {
      var n := |s| - 1;
      RunIsBits(c, s[..n]);
      AbsorbIsBits(Run(c, s[..n]), s[n]);
      RunBitsConcat(Bits(c, 32), MessageBits(s[..n]), ByteBits(s[n], 8));
    }
  }

  lemma NoBits(r: seq<bool>)
    requires |r| == 32
    ensures RunBits(r, []) == r
  {}

  lemma Inverted(c: bv32)
    ensures Odd(!c) == !Odd(c) && !c == Xor(c, 0xffff_ffff)
  {}

  /**
    CRC32C: append 32 zero coefficients to the message, complement the first 32, take the remainder by
    x^32 + 0x1EDC6F41, complement it. The word's bits from the low end are the remainder's coefficients.
   */
  lemma CrcIsRemainder(s: bytes)
    ensures Bits(Crc(s), 32) == Complement(Remainder(Front(MessageBits(s) + All(32, false), All(32, true))))
  {
    hide Bits, RunBits, Remainder, Run, Xor;
    var m := MessageBits(s);
    RemainderIsRegister(m, All(32, true));
    RunIsBits(0xffff_ffff, s);
    AllOnes();
    Inverted(Run(0xffff_ffff, s));
    BitsXor(Run(0xffff_ffff, s), 0xffff_ffff, 32);
  }

  lemma FourMoreOnes(c: bv32, rest: bv32, n: nat)
    requires Down4(c) == rest && Bits(c, 4) == All(4, true) && Bits(rest, n) == All(n, true)
    ensures Bits(c, n + 4) == All(n + 4, true)
  {
    hide Bits, Down4;
    Bits4(c, n);
  }

  lemma OnesByDigits()
    ensures Down4(0xf) == 0 && Down4(0xff) == 0xf && Down4(0xfff) == 0xff && Down4(0xffff) == 0xfff
    ensures Down4(0xf_ffff) == 0xffff && Down4(0xff_ffff) == 0xf_ffff && Down4(0xfff_ffff) == 0xff_ffff
    ensures Down4(0xffff_ffff) == 0xfff_ffff
  {}

  lemma LowOnes(c: bv32)
    requires c & 0xf == 0xf
    ensures Bits(c, 4) == All(4, true)
  {
    FirstFour(c, 0);
    FourOdd(c);
  }

  lemma FourOdd(c: bv32)
    requires c & 0xf == 0xf
    ensures Odd(c) && Odd(Half(c)) && Odd(Half(Half(c))) && Odd(Half(Half(Half(c))))
  {}

  lemma AllOnes()
    ensures Bits(0xffff_ffff, 32) == All(32, true)
  {
    OnesByDigits();
    NoBitsLeft(0);
    LowOnes(0xf);
    LowOnes(0xff);
    LowOnes(0xfff);
    LowOnes(0xffff);
    LowOnes(0xf_ffff);
    LowOnes(0xff_ffff);
    LowOnes(0xfff_ffff);
    LowOnes(0xffff_ffff);
    hide Bits, Down4;
    FourMoreOnes(0xf, 0, 0);
    FourMoreOnes(0xff, 0xf, 4);
    FourMoreOnes(0xfff, 0xff, 8);
    FourMoreOnes(0xffff, 0xfff, 12);
    FourMoreOnes(0xf_ffff, 0xffff, 16);
    FourMoreOnes(0xff_ffff, 0xf_ffff, 20);
    FourMoreOnes(0xfff_ffff, 0xff_ffff, 24);
    FourMoreOnes(0xffff_ffff, 0xfff_ffff, 28);
  }

  // ----- check values

  lemma RunLast(c: bv32, s: bytes, b: byte)
    ensures Run(c, s + [b]) == Absorb(Run(c, s), b)
  {
    assert (s + [b])[..|s|] == s;
  }

  lemma ShiftsLast(c: bv32, n: nat)
    ensures Shifts(c, n + 1) == Shift(Shifts(c, n)) && Shifts(c, 0) == c
  {}

  function EightShifts(c: bv32): bv32 { Shift(Shift(Shift(Shift(Shift(Shift(Shift(Shift(c)))))))) }

  lemma Shift8Unrolled(c: bv32)
    ensures Shift8(c) == EightShifts(c)
  {
    hide Shift, Shifts;
    ShiftsLast(c, 7);
    ShiftsLast(c, 6);
    ShiftsLast(c, 5);
    ShiftsLast(c, 4);
    ShiftsLast(c, 3);
    ShiftsLast(c, 2);
    ShiftsLast(c, 1);
    ShiftsLast(c, 0);
  }

  /** One byte, checked by evaluation. */
  lemma Absorbs(s: bytes, b: byte, w: bv32, c: bv32, d: bv32)
    requires Run(0xffff_ffff, s) == c && Word(b) == w && EightShifts(Xor(c, w)) == d
    ensures Run(0xffff_ffff, s + [b]) == d
  {
    hide Shift8, EightShifts, Xor, Word, Run;
    RunLast(0xffff_ffff, s, b);
    Shift8Unrolled(Xor(c, w));
  }

  lemma NothingRun(c: bv32)
    ensures Run(c, []) == c
  {}

  lemma AbsorbsAt(s: bytes, k: nat, b: byte, w: bv32, c: bv32, d: bv32)
    requires k < |s| && s[k] == b && Run(0xffff_ffff, s[..k]) == c && Word(b) == w && EightShifts(Xor(c, w)) == d
    ensures Run(0xffff_ffff, s[..k + 1]) == d
  {
    hide EightShifts, Xor, Word, Run;
    Absorbs(s[..k], b, w, c, d);
    assert s[..k + 1] == s[..k] + [b];
  }

  lemma DigitWords()
    ensures Word(0x31) == 0x31 && Word(0x32) == 0x32 && Word(0x33) == 0x33 && Word(0x34) == 0x34 && Word(0x35) == 0x35
    ensures Word(0x36) == 0x36 && Word(0x37) == 0x37 && Word(0x38) == 0x38 && Word(0x39) == 0x39
  {
    hide Word;
    LowDigitWords();
    MidDigitWords();
    HighDigitWords();
  }

  lemma LowDigitWords()
    ensures Word(0x31) == 0x31 && Word(0x32) == 0x32 && Word(0x33) == 0x33
  {}

  lemma MidDigitWords()
    ensures Word(0x34) == 0x34 && Word(0x35) == 0x35 && Word(0x36) == 0x36
  {}

  lemma HighDigitWords()
    ensures Word(0x37) == 0x37 && Word(0x38) == 0x38 && Word(0x39) == 0x39
  {}

  const DIGITS: bytes := [0x31, 0x32, 0x33, 0x34, 0x35, 0x36, 0x37, 0x38, 0x39]

  lemma DigitsFiveRun()
    ensures Run(0xffff_ffff, DIGITS[..5]) == 0xe72e_dcca
  {
    hide Run, Word;
    DigitWords();
    NothingRun(0xffff_ffff);
    assert DIGITS[..0] == [];
    AbsorbsAt(DIGITS, 0, 0x31, 0x31, 0xffff_ffff, 0x6f0a_661c);
    AbsorbsAt(DIGITS, 1, 0x32, 0x32, 0x6f0a_661c, 0x8caa_3b9f);
    AbsorbsAt(DIGITS, 2, 0x33, 0x33, 0x8caa_3b9f, 0xef84_d04d);
    AbsorbsAt(DIGITS, 3, 0x34, 0x34, 0xef84_d04d, 0x09c5_0b11);
    AbsorbsAt(DIGITS, 4, 0x35, 0x35, 0x09c5_0b11, 0xe72e_dcca);
  }

  /** The usual check: the digits one to nine. */
  lemma CheckValue()
    ensures Crc([0x31, 0x32, 0x33, 0x34, 0x35, 0x36, 0x37, 0x38, 0x39]) == 0xe306_9283
  {
    hide Run, Word;
    DigitWords();
    DigitsFiveRun();
    AbsorbsAt(DIGITS, 5, 0x36, 0x36, 0xe72e_dcca, 0xbeca_8e79);
    AbsorbsAt(DIGITS, 6, 0x37, 0x37, 0xbeca_8e79, 0xedbd_6815);
    AbsorbsAt(DIGITS, 7, 0x38, 0x38, 0xedbd_6815, 0x9f78_7f65);
    AbsorbsAt(DIGITS, 8, 0x39, 0x39, 0x9f78_7f65, 0x1cf9_6d7c);
    assert DIGITS[..9] == DIGITS;
  }

  function Nulls(n: nat): (s: bytes)
    ensures |s| == n
  {
    if n == 0 then [] else Nulls(n - 1) + [0]
  }

  lemma AbsorbsNull(n: nat, c: bv32, d: bv32)
    requires Run(0xffff_ffff, Nulls(n)) == c && EightShifts(c) == d
    ensures Run(0xffff_ffff, Nulls(n + 1)) == d
  {
    hide EightShifts, Run;
    NullWord();
    XorZeroRight(c);
    assert Nulls(n + 1) == Nulls(n) + [0];
    Absorbs(Nulls(n), 0, 0, c, d);
  }

  lemma NullWord()
    ensures Word(0) == 0
  {}

  lemma Nulls8()
    ensures Run(0xffff_ffff, Nulls(8)) == 0x73d7_4d75
  {
    hide Run, Nulls;
    NoNulls();
    AbsorbsNull(0, 0xffff_ffff, 0xad82_acae);
    AbsorbsNull(1, 0xad82_acae, 0x0e9e_882d);
    AbsorbsNull(2, 0x0e9e_882d, 0x9f9b_5c85);
    AbsorbsNull(3, 0x9f9b_5c85, 0xb798_b438);
    AbsorbsNull(4, 0xb798_b438, 0xba8d_89ca);
    AbsorbsNull(5, 0xba8d_89ca, 0xa8d5_8375);
    AbsorbsNull(6, 0xa8d5_8375, 0x44c1_9592);
    AbsorbsNull(7, 0x44c1_9592, 0x73d7_4d75);
  }

  lemma Nulls16()
    ensures Run(0xffff_ffff, Nulls(16)) == 0xbd8f_6515
  {
    hide Run, Nulls;
    Nulls8();
    AbsorbsNull(8, 0x73d7_4d75, 0x441a_975c);
    AbsorbsNull(9, 0x441a_975c, 0x1c22_0f94);
    AbsorbsNull(10, 0x1c22_0f94, 0x552e_4907);
    AbsorbsNull(11, 0x552e_4907, 0xd49f_4aa2);
    AbsorbsNull(12, 0xd49f_4aa2, 0x43a4_5a1b);
    AbsorbsNull(13, 0x43a4_5a1b, 0x8994_c80e);
    AbsorbsNull(14, 0x8994_c80e, 0xacf1_2bef);
    AbsorbsNull(15, 0xacf1_2bef, 0xbd8f_6515);
  }

  lemma Nulls24()
    ensures Run(0xffff_ffff, Nulls(24)) == 0x7b04_1311
  {
    hide Run, Nulls;
    Nulls16();
    AbsorbsNull(16, 0xbd8f_6515, 0x2512_5c16);
    AbsorbsNull(17, 0x2512_5c16, 0x36da_32db);
    AbsorbsNull(18, 0x36da_32db, 0x4a6c_90a2);
    AbsorbsNull(19, 0x4a6c_90a2, 0x433a_a9c1);
    AbsorbsNull(20, 0x433a_a9c1, 0x31a5_9f6e);
    AbsorbsNull(21, 0x31a5_9f6e, 0xcd8f_89da);
    AbsorbsNull(22, 0xcd8f_89da, 0xb8fc_461a);
    AbsorbsNull(23, 0xb8fc_461a, 0x7b04_1311);
  }

  lemma Nulls32()
    ensures Run(0xffff_ffff, Nulls(32)) == 0x756e_c955
  {
    hide Run, Nulls;
    Nulls24();
    AbsorbsNull(24, 0x7b04_1311, 0xe24e_407f);
    AbsorbsNull(25, 0xe24e_407f, 0x2f69_2669);
    AbsorbsNull(26, 0x2f69_2669, 0x195b_2188);
    AbsorbsNull(27, 0x195b_2188, 0x0836_3896);
    AbsorbsNull(28, 0x0836_3896, 0xb401_2dc7);
    AbsorbsNull(29, 0xb401_2dc7, 0x17f3_4302);
    AbsorbsNull(30, 0x17f3_4302, 0xe12c_83b4);
    AbsorbsNull(31, 0xe12c_83b4, 0x756e_c955);
  }

  lemma NoNulls()
    ensures Run(0xffff_ffff, Nulls(0)) == 0xffff_ffff
  {}

  /** Thirty-two zero bytes, from section B.4 of RFC 3720. */
  lemma ThirtyTwoNulls()
    ensures Crc(Nulls(32)) == 0x8a91_36aa
  {
    hide Run, Nulls;
    Nulls32();
  }
}
