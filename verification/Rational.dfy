/** Reduced rationals: `src/common/checked.c` (gcd) and the validity rule of `src/model/time.c`. */
module Rationals {
  import opened Base

  datatype Rational = Rational(num: u32, den: u32)

  function Gcd(a: nat, b: nat): nat
    decreases b
  {
    if b == 0 then a else Gcd(b, a % b)
  }

  predicate IsReduced(r: Rational) {
    r.num != 0 && r.den != 0 && Gcd(r.num, r.den) == 1
  }

  method ComputeGcd(x: nat, y: nat) returns (a: nat)
    ensures a == Gcd(x, y)
  {
    a := x;
    var b: nat := y;
    while b != 0
      invariant Gcd(a, b) == Gcd(x, y)
      decreases b
    {
      var r := a % b;
      a := b;
      b := r;
    }
  }
}
