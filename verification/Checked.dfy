/** Checked 64-bit arithmetic and power-of-two alignment: `src/common/checked.c`. */
module Checked64 {
  import opened Base
  import opened Format
  import opened Arith
  import opened Bits

  method CheckedAdd(a: u64, b: u64) returns (ok: bool, sum: u64)
    ensures ok <==> a + b <= U64_MAX
    ensures ok ==> sum == a + b
  {
    if U64_MAX - a < b { return false, 0; }
    return true, a + b;
  }

  lemma AlignmentsArePowers(log2: nat)
    ensures IsPowerOfTwo(Alignment(log2))
  {
    assert IsPowerOfTwo(2) && IsPowerOfTwo(4) && IsPowerOfTwo(8) && IsPowerOfTwo(16);
  }

  lemma SixtyFourOnes()
    ensures Ones(64) == U64_MAX
  {
    hide Ones;
    FourOnes();
    OnesAdd(4, 4);
    assert Ones(8) == 0xFF;
    OnesAdd(8, 8);
    assert Ones(16) == 0xFFFF;
    OnesAdd(16, 16);
    assert Ones(32) == 0xFFFF_FFFF;
    OnesAdd(32, 32);
  }

  lemma FourOnes()
    ensures Ones(4) == 0xF
  {
    assert Ones(2) == 3;
  }

  lemma {:induction false} OnesAdd(j: nat, k: nat)
    ensures Ones(j + k) + 1 == Mul(Ones(j) + 1, Ones(k) + 1)
  {
    if j > 0 {
      OnesAdd(j - 1, k);
      MulSum(Ones(k) + 1, Ones(j - 1) + 1, Ones(j - 1) + 1);
      MulComm(Ones(j) + 1, Ones(k) + 1);
      MulComm(Ones(j - 1) + 1, Ones(k) + 1);
    }
  }

  /** The power-of-two test and the rounding are the source's bit operations. */
  method Align(value: u64, alignment: u64) returns (ok: bool, aligned: u64)
    ensures ok <==> IsPowerOfTwo(alignment) && value + (alignment - 1) <= U64_MAX
    ensures ok ==> aligned == AlignUp(value, alignment)
  {
    hide And, IsPowerOfTwo;
    if alignment == 0 { ZeroIsNoPower(); return false, 0; }
    PowerOfTwoBitTest(alignment);
    if And(alignment, alignment - 1) != 0 { return false, 0; }
    var mask: u64 := alignment - 1;
    var fits, added := CheckedAdd(value, mask);
    if !fits { return false, 0; }
    SixtyFourOnes();
    ClearLowBits(added, alignment, 64);
    assert 0 <= added % alignment <= added;
    return true, And(added, U64_MAX - mask);
  }

  lemma ZeroIsNoPower()
    ensures !IsPowerOfTwo(0)
  {}

  /** The aligned size is the least multiple of the alignment that is not below the size. */
  lemma AlignIsLeast(v: nat, a: nat, m: nat)
    requires a > 0
    ensures AlignUp(v, a) % a == 0 && v <= AlignUp(v, a) < v + a
    ensures m % a == 0 && v <= m ==> AlignUp(v, a) <= m
  {
    hide Mul;
    var s := v + (a - 1);
    DivMod(s, a);
    DivUnique(Mul(a, s / a), a, s / a, 0);
    DivMod(m, a);
    if m % a == 0 && v <= m && Mul(a, m / a) < Mul(a, s / a) {
      MulCancelLess(a, m / a, s / a);
      MulMonotone(a, m / a + 1, s / a);
      MulSum(a, m / a, 1);
      MulOne(a);
    }
  }
}
