/** Small facts about products and quotients, stated so that no proof has to multiply two unknowns twice. */
module Arith {
  function Mul(a: int, b: int): int { a * b }

  lemma MulSum(a: int, b: int, c: int)
    ensures Mul(a, b + c) == Mul(a, b) + Mul(a, c)
  {}

  lemma MulComm(a: int, b: int)
    ensures Mul(a, b) == Mul(b, a)
  {}

  lemma MulAssoc(a: int, b: int, c: int)
    ensures Mul(Mul(a, b), c) == Mul(a, Mul(b, c))
  {}

  lemma MulOne(a: int)
    ensures Mul(a, 1) == a && Mul(1, a) == a && Mul(a, 0) == 0 && Mul(0, a) == 0
    ensures Mul(a, -1) == -a
  {}

  lemma MulNonNegative(a: int, b: int)
    requires a >= 0 && b >= 0
    ensures Mul(a, b) >= 0
  {}

  lemma MulMonotone(a: int, b: int, c: int)
    requires a >= 0 && b <= c
    ensures Mul(a, b) <= Mul(a, c)
  {
    hide *;
    MulNonNegative(a, c - b);
    MulSum(a, b, c - b);
  }

  /** If `a > 0` and `a * b < a * c` then `b < c`. */
  lemma MulCancelLess(a: int, b: int, c: int)
    requires a > 0 && Mul(a, b) < Mul(a, c)
    ensures b < c
  {
    hide *;
    if c <= b { MulMonotone(a, c, b); }
  }

  lemma DivMod(x: int, a: int)
    requires a > 0
    ensures x == Mul(a, x / a) + x % a && 0 <= x % a < a
  {}

  lemma DivUnique(x: int, a: int, q: int, r: int)
    requires a > 0 && 0 <= r < a && x == Mul(a, q) + r
    ensures x / a == q && x % a == r
  {
    hide *;
    var q', r' := x / a, x % a;
    DivMod(x, a);
    if q < q' {
      MulMonotone(a, q + 1, q');
      MulSum(a, q, 1);
      MulOne(a);
    } else if q' < q {
      MulMonotone(a, q' + 1, q);
      MulSum(a, q', 1);
      MulOne(a);
    }
  }
}
