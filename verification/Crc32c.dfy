/**
  CRC32C as `src/format/crc32c.c` computes it, and the fact the container rests on: two messages of
  the same length that differ only inside four consecutive bytes never share a checksum.

  Word operations are wrapped in small functions so that proofs can treat them as uninterpreted.
 */
module Crc32c {
  import opened Base

  function Xor(a: bv32, b: bv32): bv32 { a ^ b }
  function Push(w: bv32, odd: bool): bv32 { (w << 1) | (if odd then 1 else 0) }
  predicate Odd(c: bv32) { c & 1 == 1 }
  function Half(c: bv32): bv32 { c >> 1 }
  function Double(c: bv32): bv32 { c << 1 }
  function Up8(c: bv32): bv32 { c << 8 }
  predicate Fits8(c: bv32) { c < 0x100 }
  predicate Fits16(c: bv32) { c < 0x1_0000 }
  predicate Fits24(c: bv32) { c < 0x100_0000 }
  predicate Fits31(c: bv32) { c < 0x8000_0000 }

  /** A byte as a 32-bit word, bit by bit from the top. */
  function Word(b: byte): bv32 {
    Low(Low(Low(Low(Low(Low(Low(Low(0, b, 128), b, 64), b, 32), b, 16), b, 8), b, 4), b, 2), b, 1)
  }

  function Low(w: bv32, b: byte, unit: nat): bv32
    requires unit > 0
  {
    Push(w, b / unit % 2 == 1)
  }

  /** One step of the reflected polynomial division. */
  function Shift(c: bv32): bv32 {
    Xor(Half(c), if Odd(c) then 0x82f6_3b78 else 0)
  }

  function Shifts(c: bv32, n: nat): bv32 {
    if n == 0 then c else Shift(Shifts(c, n - 1))
  }

  function Shift8(c: bv32): bv32 { Shifts(c, 8) }

  function Absorb(c: bv32, b: byte): bv32 {
    Shift8(Xor(c, Word(b)))
  }

  function Run(c: bv32, s: bytes): bv32 {
    if s == [] then c else Absorb(Run(c, s[..|s| - 1]), s[|s| - 1])
  }

  function Crc(s: bytes): bv32 {
    !Run(0xffff_ffff, s)
  }

  // ----- the loops of the implementation

  /** The branch-free step: the mask is all ones exactly when the low bit is set. */
  function MaskedShift(c: bv32): (r: bv32)
    ensures r == Shift(c)
  {
    (c >> 1) ^ (0x82f6_3b78 & (0 - (c & 1)))
  }

  method ComputeCrc(data: bytes) returns (crc: bv32)
    ensures crc == Crc(data)
  {
    hide Word, Shift, MaskedShift, Xor;
    crc := 0xffff_ffff;
    for i := 0 to |data|
      invariant crc == Run(0xffff_ffff, data[..i])
    {
      crc := Xor(crc, Word(data[i]));
      ghost var mixed := crc;
      for bit := 0 to 8
        invariant crc == Shifts(mixed, bit)
      {
        crc := MaskedShift(crc);
      }
      assert data[..i + 1][..i] == data[..i];
    }
    assert data[..|data|] == data;
    crc := !crc;
  }

  // ----- algebra of words

  lemma XorAssoc(a: bv32, b: bv32, c: bv32)
    ensures Xor(Xor(a, b), c) == Xor(a, Xor(b, c))
  {}

  lemma XorComm(a: bv32, b: bv32)
    ensures Xor(a, b) == Xor(b, a)
  {}

  lemma XorSelf(a: bv32, b: bv32)
    ensures Xor(Xor(a, b), b) == a
  {}

  lemma XorIdentity(a: bv32)
    ensures Xor(a, a) == 0 && Xor(0, a) == a
  {}

  lemma XorZero(a: bv32, b: bv32)
    ensures Xor(a, b) == 0 <==> a == b
  {
    hide *;
    XorSelf(a, b);
    XorIdentity(a);
    XorIdentity(b);
  }

  lemma XorFits(a: bv32, b: bv32)
    ensures Fits24(a) && Fits24(b) ==> Fits24(Xor(a, b))
    ensures Fits16(a) && Fits16(b) ==> Fits16(Xor(a, b))
    ensures Fits8(a) && Fits8(b) ==> Fits8(Xor(a, b))
  {}

  lemma FitsWiden(a: bv32)
    ensures Fits8(a) ==> Fits16(a)
    ensures Fits16(a) ==> Fits24(a)
    ensures Fits8(a) ==> Fits16(Up8(a))
    ensures Fits16(a) ==> Fits24(Up8(a))
  {}

  /** Mixing `p` and `q` into two words changes their difference by the difference of `p` and `q`. */
  lemma XorMix(a: bv32, b: bv32, p: bv32, q: bv32)
    ensures Xor(a, b) == Xor(Xor(Xor(a, p), Xor(b, q)), Xor(p, q))
  {
    hide *;
    calc {
      Xor(Xor(Xor(a, p), Xor(b, q)), Xor(p, q));
      { XorComm(p, q); XorAssoc(Xor(Xor(a, p), Xor(b, q)), q, p); }
      Xor(Xor(Xor(Xor(a, p), Xor(b, q)), q), p);
      { XorAssoc(Xor(a, p), Xor(b, q), q); XorSelf(b, q); }
      Xor(Xor(Xor(a, p), b), p);
      { XorComm(Xor(a, p), b); XorAssoc(b, Xor(a, p), p); XorSelf(a, p); }
      Xor(b, a);
      { XorComm(a, b); }
      Xor(a, b);
    }
  }

  /** Mixing the same word into both operands leaves their difference alone. */
  lemma XorCancel(a: bv32, p: bv32, q: bv32)
    ensures Xor(Xor(a, p), Xor(a, q)) == Xor(p, q)
  {
    hide *;
    XorMix(p, q, a, a);
    XorComm(p, a);
    XorComm(q, a);
    XorZero(a, a);
    var d := Xor(Xor(a, p), Xor(a, q));
    XorAssoc(Xor(d, 0), a, a);
    XorSelf(d, 0);
    XorZero(d, d);
    assert Xor(d, 0) == d by { XorSelf(d, d); XorComm(d, 0); }
  }

  // ----- bytes as words

  lemma PushSplits(x: bv32, y: bv32, p: bool, q: bool)
    requires Fits31(x) && Fits31(y) && Push(x, p) == Push(y, q)
    ensures x == y && p == q
  {}

  lemma WordFits(b: byte)
    ensures Fits8(Word(b))
  {}

  /** A byte is determined by its bits. */
  lemma ByteFromBits(b: byte)
    ensures b == 2 * (2 * (2 * (2 * (2 * (2 * (2 * (b / 128 % 2) + b / 64 % 2) + b / 32 % 2) + b / 16 % 2)
                 + b / 8 % 2) + b / 4 % 2) + b / 2 % 2) + b % 2
  {
    assert b / 128 == b / 128 % 2;
    assert b / 64 == 2 * (b / 128) + b / 64 % 2;
    assert b / 32 == 2 * (b / 64) + b / 32 % 2;
    assert b / 16 == 2 * (b / 32) + b / 16 % 2;
    assert b / 8 == 2 * (b / 16) + b / 8 % 2;
    assert b / 4 == 2 * (b / 8) + b / 4 % 2;
    assert b / 2 == 2 * (b / 4) + b / 2 % 2;
  }

  lemma LowSplits(x: bv32, y: bv32, a: byte, b: byte, unit: nat)
    requires unit > 0 && Fits31(x) && Fits31(y) && Low(x, a, unit) == Low(y, b, unit)
    ensures x == y && a / unit % 2 == b / unit % 2
  {
    hide Push, Fits31;
    PushSplits(x, y, a / unit % 2 == 1, b / unit % 2 == 1);
  }

  lemma WordStages(b: byte)
    ensures Fits31(0)
    ensures Fits31(Low(0, b, 128))
    ensures Fits31(Low(Low(0, b, 128), b, 64))
    ensures Fits31(Low(Low(Low(0, b, 128), b, 64), b, 32))
    ensures Fits31(Low(Low(Low(Low(0, b, 128), b, 64), b, 32), b, 16))
    ensures Fits31(Low(Low(Low(Low(Low(0, b, 128), b, 64), b, 32), b, 16), b, 8))
    ensures Fits31(Low(Low(Low(Low(Low(Low(0, b, 128), b, 64), b, 32), b, 16), b, 8), b, 4))
    ensures Fits31(Low(Low(Low(Low(Low(Low(Low(0, b, 128), b, 64), b, 32), b, 16), b, 8), b, 4), b, 2))
  {}

  lemma WordInjective(a: byte, b: byte)
    requires Word(a) == Word(b)
    ensures a == b
  {
    hide Low, Fits31;
    WordStages(a);
    WordStages(b);
    var a1, b1 := Low(0, a, 128), Low(0, b, 128);
    var a2, b2 := Low(a1, a, 64), Low(b1, b, 64);
    var a3, b3 := Low(a2, a, 32), Low(b2, b, 32);
    var a4, b4 := Low(a3, a, 16), Low(b3, b, 16);
    var a5, b5 := Low(a4, a, 8), Low(b4, b, 8);
    var a6, b6 := Low(a5, a, 4), Low(b5, b, 4);
    var a7, b7 := Low(a6, a, 2), Low(b6, b, 2);
    LowSplits(a7, b7, a, b, 1);
    LowSplits(a6, b6, a, b, 2);
    LowSplits(a5, b5, a, b, 4);
    LowSplits(a4, b4, a, b, 8);
    LowSplits(a3, b3, a, b, 16);
    LowSplits(a2, b2, a, b, 32);
    LowSplits(a1, b1, a, b, 64);
    LowSplits(0, 0, a, b, 128);
    ByteFromBits(a);
    ByteFromBits(b);
  }

  // ----- the division step loses nothing

  /** If the successors agree in the top bit, the states differ by the doubled difference. */
  lemma ShiftDifference(x: bv32, y: bv32)
    requires Fits31(Xor(Shift(x), Shift(y)))
    ensures Xor(x, y) == Double(Xor(Shift(x), Shift(y)))
  {
    hide Xor, Odd, Half, Double, Fits31;
    var a, b := Half(x), Half(y);
    HalfFits(x);
    HalfFits(y);
    XorEqual(a, b);
    OneParity(a, b);
    if Odd(x) == Odd(y) { SameParity(x, y); }
  }

  lemma HalfFits(x: bv32)
    ensures Fits31(Half(x))
  {}

  lemma SameParity(x: bv32, y: bv32)
    requires Odd(x) == Odd(y)
    ensures Xor(x, y) == Double(Xor(Half(x), Half(y)))
  {}

  lemma XorEqual(a: bv32, b: bv32)
    ensures Xor(Xor(a, 0x82f6_3b78), Xor(b, 0x82f6_3b78)) == Xor(a, b) && Xor(Xor(a, 0), Xor(b, 0)) == Xor(a, b)
  {}

  /** The polynomial's top bit shows when only one of two halved words has it mixed in. */
  lemma OneParity(a: bv32, b: bv32)
    requires Fits31(a) && Fits31(b)
    ensures !Fits31(Xor(Xor(a, 0x82f6_3b78), Xor(b, 0))) && !Fits31(Xor(Xor(a, 0), Xor(b, 0x82f6_3b78)))
  {}

  lemma DoubleFits(d: bv32)
    requires Fits24(d)
    ensures Fits31(d) && Fits31(Double(d)) && Fits31(Double(Double(d))) && Fits31(Double(Double(Double(d))))
    ensures var e := Double(Double(Double(Double(d))));
            && Fits31(e) && Fits31(Double(e)) && Fits31(Double(Double(e))) && Fits31(Double(Double(Double(e))))
            && Double(Double(Double(Double(e)))) == Up8(d)
  {}

  /** Eight steps: if the results differ only in the low 24 bits, the states differ by that, shifted up. */
  lemma Shift8Difference(x: bv32, y: bv32)
    requires Fits24(Xor(Shift8(x), Shift8(y)))
    ensures Xor(x, y) == Up8(Xor(Shift8(x), Shift8(y)))
  {
    hide Xor, Shift, Double, Fits31, Fits24, Up8;
    DoubleFits(Xor(Shift8(x), Shift8(y)));
    ShiftDifference(Shifts(x, 7), Shifts(y, 7));
    ShiftDifference(Shifts(x, 6), Shifts(y, 6));
    ShiftDifference(Shifts(x, 5), Shifts(y, 5));
    ShiftDifference(Shifts(x, 4), Shifts(y, 4));
    ShiftDifference(Shifts(x, 3), Shifts(y, 3));
    ShiftDifference(Shifts(x, 2), Shifts(y, 2));
    ShiftDifference(Shifts(x, 1), Shifts(y, 1));
    assert Shifts(x, 1) == Shift(Shifts(x, 0)) && Shifts(y, 1) == Shift(Shifts(y, 0));
    ShiftDifference(x, y);
  }

  lemma Shift8Injective(x: bv32, y: bv32)
    requires Shift8(x) == Shift8(y)
    ensures x == y
  {
    hide *;
    XorZero(Shift8(x), Shift8(y));
    ZeroFits();
    Shift8Difference(x, y);
    XorZero(x, y);
  }

  lemma ZeroFits()
    ensures Fits24(0) && Fits16(0) && Up8(0) == 0
  {}

  /** States whose successors, mixed with bytes `p` and `q`, differ by `d` are that far apart, shifted. */
  lemma StepBack(x: bv32, y: bv32, p: bv32, q: bv32, d: bv32)
    requires Fits24(d) && Fits8(p) && Fits8(q)
    requires Xor(Xor(Shift8(x), p), Xor(Shift8(y), q)) == d
    ensures Xor(x, y) == Up8(Xor(d, Xor(p, q)))
  {
    hide *;
    XorMix(Shift8(x), Shift8(y), p, q);
    XorFits(p, q);
    FitsWiden(Xor(p, q));
    XorFits(d, Xor(p, q));
    Shift8Difference(x, y);
  }

  lemma StagesVanish(e0: bv32, e1: bv32, e2: bv32, e3: bv32)
    requires Fits8(e0) && Fits8(e1) && Fits8(e2) && Fits8(e3)
    requires e0 == Up8(Xor(Up8(Xor(Up8(e3), e2)), e1))
    ensures e0 == e1 == e2 == e3 == 0
  {}

  /** The checksum state after a fixed start determines the last four bytes absorbed. */
  lemma FourWords(c: bv32, p0: bv32, p1: bv32, p2: bv32, p3: bv32, q0: bv32, q1: bv32, q2: bv32, q3: bv32)
    requires Fits8(p0) && Fits8(p1) && Fits8(p2) && Fits8(p3)
    requires Fits8(q0) && Fits8(q1) && Fits8(q2) && Fits8(q3)
    requires Shift8(Xor(Shift8(Xor(Shift8(Xor(Shift8(Xor(c, p0)), p1)), p2)), p3))
          == Shift8(Xor(Shift8(Xor(Shift8(Xor(Shift8(Xor(c, q0)), q1)), q2)), q3))
    ensures p0 == q0 && p1 == q1 && p2 == q2 && p3 == q3
  {
    hide *;
    var x1, y1 := Xor(c, p0), Xor(c, q0);
    var x2, y2 := Xor(Shift8(x1), p1), Xor(Shift8(y1), q1);
    var x3, y3 := Xor(Shift8(x2), p2), Xor(Shift8(y2), q2);
    var x4, y4 := Xor(Shift8(x3), p3), Xor(Shift8(y3), q3);
    var e0, e1, e2, e3 := Xor(p0, q0), Xor(p1, q1), Xor(p2, q2), Xor(p3, q3);
    XorFits(p0, q0);
    XorFits(p1, q1);
    XorFits(p2, q2);
    XorFits(p3, q3);
    ZeroFits();
    Shift8Injective(x4, y4);
    XorZero(x4, y4);
    StepBack(x3, y3, p3, q3, 0);
    assert Xor(0, e3) == e3 by { XorZero(e3, e3); XorSelf(e3, e3); }
    FitsWiden(e3);
    FitsWiden(Up8(e3));
    StepBack(x2, y2, p2, q2, Up8(e3));
    FitsWiden(e2);
    XorFits(Up8(e3), e2);
    FitsWiden(Xor(Up8(e3), e2));
    StepBack(x1, y1, p1, q1, Up8(Xor(Up8(e3), e2)));
    XorCancel(c, p0, q0);
    StagesVanish(e0, e1, e2, e3);
    XorZero(p0, q0);
    XorZero(p1, q1);
    XorZero(p2, q2);
    XorZero(p3, q3);
  }

  // ----- messages

  lemma {:induction false} RunConcat(c: bv32, s: bytes, t: bytes)
    ensures Run(c, s + t) == Run(Run(c, s), t)
  {
    hide Absorb;
    if t == [] {
      assert s + t == s;
    } else {
      assert (s + t)[..|s + t| - 1] == s + t[..|t| - 1];
      RunConcat(c, s, t[..|t| - 1]);
    }
  }

  lemma {:induction false} RunInjective(x: bv32, y: bv32, s: bytes)
    requires Run(x, s) == Run(y, s)
    ensures x == y
  {
    hide Shift8, Xor, Word;
    if s != [] {
      var n := |s| - 1;
      var x', y' := Run(x, s[..n]), Run(y, s[..n]);
      Shift8Injective(Xor(x', Word(s[n])), Xor(y', Word(s[n])));
      XorSelf(x', Word(s[n]));
      XorSelf(y', Word(s[n]));
      RunInjective(x, y, s[..n]);
    }
  }

  lemma RunFour(c: bv32, s: bytes)
    requires |s| == 4
    ensures Run(c, s) == Absorb(Absorb(Absorb(Absorb(c, s[0]), s[1]), s[2]), s[3])
  {
    hide Absorb;
    assert s[..3][..2] == s[..2] && s[..2][..1] == s[..1] && s[..1][..0] == [];
    assert Run(c, s[..1]) == Absorb(c, s[0]);
    assert Run(c, s[..3]) == Absorb(Run(c, s[..2]), s[2]);
  }

  lemma FourBytes(c: bv32, s: bytes, t: bytes)
    requires |s| == |t| == 4 && Run(c, s) == Run(c, t)
    ensures s == t
  {
    hide Shift8, Xor, Word, Run, Fits8;
    RunFour(c, s);
    RunFour(c, t);
    forall i | 0 <= i < 4
      ensures Fits8(Word(s[i])) && Fits8(Word(t[i]))
    {
      WordFits(s[i]);
      WordFits(t[i]);
    }
    FourWords(c, Word(s[0]), Word(s[1]), Word(s[2]), Word(s[3]), Word(t[0]), Word(t[1]), Word(t[2]), Word(t[3]));
    forall i | 0 <= i < 4
      ensures s[i] == t[i]
    {
      WordInjective(s[i], t[i]);
    }
  }

  /** Burst detection: changes confined to four consecutive bytes always change the checksum. */
  lemma BurstChangesCrc(s: bytes, t: bytes, at: nat)
    requires |s| == |t| && at + 4 <= |s| && s != t
    requires s[..at] == t[..at] && s[at + 4..] == t[at + 4..]
    ensures Crc(s) as int != Crc(t) as int
  {
    hide Run;
    var w, v, rest := s[at..at + 4], t[at..at + 4], s[at + 4..];
    assert s == s[..at] + w + rest && t == s[..at] + v + rest;
    if Crc(s) == Crc(t) {
      var init: bv32 := 0xffff_ffff;
      NotInjective(Run(init, s), Run(init, t));
      RunConcat(init, s[..at] + w, rest);
      RunConcat(init, s[..at] + v, rest);
      RunConcat(init, s[..at], w);
      RunConcat(init, s[..at], v);
      RunInjective(Run(init, s[..at] + w), Run(init, s[..at] + v), rest);
      FourBytes(Run(init, s[..at]), w, v);
    }
    AsIntInjective(Crc(s), Crc(t));
  }

  lemma NotInjective(a: bv32, b: bv32)
    ensures !a == !b ==> a == b
  {}

  lemma AsIntInjective(a: bv32, b: bv32)
    ensures a as int == b as int ==> a == b
  {
    assert (a as int) as bv32 == a;
  }
}
