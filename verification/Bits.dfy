/** Bitwise operators on unsigned integers, bit by bit from the low end, and the two masks the code relies on. */
module Bits {
  import opened Arith

  function And(a: nat, b: nat): nat {
    if a == 0 || b == 0 then 0 else (a % 2) * (b % 2) + 2 * And(a / 2, b / 2)
  }

  function Xor(a: nat, b: nat): nat {
    if a == 0 && b == 0 then 0 else (a % 2 + b % 2) % 2 + 2 * Xor(a / 2, b / 2)
  }

  /** Bit `k` of `a`. */
  predicate Bit(a: nat, k: nat) { if k == 0 then a % 2 == 1 else Bit(a / 2, k - 1) }

  lemma {:induction false} ZeroHasNoBits(k: nat)
    ensures !Bit(0, k)
  {
    if k > 0 { ZeroHasNoBits(k - 1); }
  }

  /** The operators are bitwise. */
  lemma {:induction false} BitByBit(a: nat, b: nat, k: nat)
    ensures Bit(Xor(a, b), k) <==> Bit(a, k) != Bit(b, k)
    ensures Bit(And(a, b), k) <==> Bit(a, k) && Bit(b, k)
  {
    ZeroHasNoBits(k);
    if k > 0 { BitByBit(a / 2, b / 2, k - 1); ZeroHasNoBits(k - 1); }
  }

  predicate IsPowerOfTwo(n: nat) { n == 1 || (n > 0 && n % 2 == 0 && IsPowerOfTwo(n / 2)) }

  lemma {:induction false} AndSelf(a: nat)
    ensures And(a, a) == a
  {
    if a > 0 { AndSelf(a / 2); }
  }

  /** `n & (n - 1)` clears the lowest set bit, so it is zero exactly for a power of two. */
  lemma {:induction false} PowerOfTwoBitTest(n: nat)
    requires n > 0
    ensures And(n, n - 1) == 0 <==> IsPowerOfTwo(n)
  {
    if n % 2 == 0 {
      assert (n - 1) / 2 == n / 2 - 1;
      PowerOfTwoBitTest(n / 2);
    } else {
      assert (n - 1) / 2 == n / 2;
      AndSelf(n / 2);
    }
  }

  /** All ones in the low `k` bits. */
  function Ones(k: nat): nat { if k == 0 then 0 else 1 + 2 * Ones(k - 1) }

  lemma {:induction false} AndOnes(x: nat, k: nat)
    requires x <= Ones(k)
    ensures And(x, Ones(k)) == x
  {
    if k > 0 && x > 0 { AndOnes(x / 2, k - 1); }
  }

  /** Masking a `k`-bit value with the complement of `a - 1` subtracts its remainder by the power of two `a`. */
  lemma {:induction false} ClearLowBits(x: nat, a: nat, k: nat)
    requires IsPowerOfTwo(a) && x <= Ones(k) && a - 1 <= Ones(k)
    ensures And(x, Ones(k) - (a - 1)) == x - x % a
    decreases k
  {
    if a == 1 {
      AndOnes(x, k);
    } else if x == 0 {
    } else {
      var m := a / 2;
      ClearLowBits(x / 2, m, k - 1);
      var mask := Ones(k) - (a - 1);
      assert mask % 2 == 0 && mask / 2 == Ones(k - 1) - (m - 1);
      HalfRemainder(x, m);
      if mask == 0 { SmallRemainder(x, a); }
    }
  }

  lemma HalfRemainder(x: nat, m: nat)
    requires m > 0
    ensures x % (2 * m) == 2 * (x / 2 % m) + x % 2
  {
    hide Mul;
    var q, r := x / 2 / m, x / 2 % m;
    DivMod(x / 2, m);
    MulAssoc(2, m, q);
    TwiceIs(m);
    TwiceIs(Mul(m, q));
    DivUnique(x, 2 * m, q, 2 * r + x % 2);
  }

  lemma TwiceIs(v: int)
    ensures Mul(2, v) == 2 * v
  {}

  lemma SmallRemainder(x: nat, a: nat)
    requires x < a
    ensures x % a == x
  {}
}
