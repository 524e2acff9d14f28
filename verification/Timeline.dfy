/** Exact rational timestamp conversion: `src/model/time.c`. */
module Timeline {
  import opened Base
  import opened Arith
  import opened Rationals

  datatype Rounding = FLOOR | CEIL | NEAREST_EVEN

  const TWO_127: int := 0x8000_0000_0000_0000_0000_0000_0000_0000
  type i128 = x: int | -0x8000_0000_0000_0000_0000_0000_0000_0000 <= x < 0x8000_0000_0000_0000_0000_0000_0000_0000

  // ----- what it means to round n / d

  ghost predicate IsRounding(mode: Rounding, n: int, d: int, q: int) {
    match mode
    case FLOOR => Mul(d, q) <= n < Mul(d, q) + d
    case CEIL => Mul(d, q) - d < n <= Mul(d, q)
    case NEAREST_EVEN =>
      && -d <= 2 * (n - Mul(d, q)) <= d
      && (2 * (n - Mul(d, q)) == d || 2 * (n - Mul(d, q)) == -d ==> q % 2 == 0)
  }

  /** The unique such integer. */
  function Round(mode: Rounding, n: int, d: int): int
    requires d > 0
  {
    var q, r := n / d, n % d;
    match mode
    case FLOOR => q
    case CEIL => if r == 0 then q else q + 1
    case NEAREST_EVEN => if 2 * r < d || (2 * r == d && q % 2 == 0) then q else q + 1
  }

  lemma NextMultiple(d: int, q: int)
    ensures Mul(d, q + 1) == Mul(d, q) + d && Mul(d, q - 1) == Mul(d, q) - d
  {}

  lemma RoundIsRounding(mode: Rounding, n: int, d: int)
    requires d > 0
    ensures IsRounding(mode, n, d, Round(mode, n, d))
  {
    hide Mul;
    DivMod(n, d);
    NextMultiple(d, n / d);
  }

  /** Of two integers `p < q`, the multiple of `d` by `q` is at least `d` further. */
  lemma Spread(d: int, p: int, q: int)
    requires d > 0 && p < q
    ensures Mul(d, p) + d <= Mul(d, q)
    ensures p + 1 < q ==> Mul(d, p) + 2 * d <= Mul(d, q)
  {
    hide Mul;
    NextMultiple(d, p);
    NextMultiple(d, p + 1);
    MulMonotone(d, p + 1, q);
    if p + 1 < q { MulMonotone(d, p + 2, q); }
  }

  /** Rounding is monotone in the numerator, in every mode; in particular it is unique. */
  lemma RoundingMonotone(mode: Rounding, n: int, n': int, d: int, q: int, q': int)
    requires d > 0 && n <= n' && IsRounding(mode, n, d, q) && IsRounding(mode, n', d, q')
    ensures q <= q'
  {
    hide Mul;
    if q' < q { Spread(d, q', q); }
  }

  lemma RoundingIsRound(mode: Rounding, n: int, d: int, q: int)
    requires d > 0 && IsRounding(mode, n, d, q)
    ensures q == Round(mode, n, d)
  {
    hide Round, IsRounding;
    RoundIsRounding(mode, n, d);
    RoundingMonotone(mode, n, n, d, q, Round(mode, n, d));
    RoundingMonotone(mode, n, n, d, Round(mode, n, d), q);
  }

  lemma MulPositiveOrder(k: int, a: int, b: int)
    requires k > 0
    ensures Mul(k, a) < Mul(k, b) <==> a < b
    ensures Mul(k, a) == Mul(k, b) <==> a == b
  {
    hide Mul;
    if a < b { Spread(k, a, b); } else if b < a { Spread(k, b, a); }
  }

  /** Cancelling a common factor of numerator and denominator does not change the rounding. */
  lemma RoundingScales(mode: Rounding, n: int, d: int, q: int, k: int)
    requires k > 0 && d > 0 && IsRounding(mode, n, d, q)
    ensures IsRounding(mode, Mul(k, n), Mul(k, d), q)
  {
    hide Mul;
    var m := Mul(d, q);
    MulAssoc(k, d, q);
    MulSum(k, m, d);
    MulSum(k, m - d, d);
    match mode
    case FLOOR =>
      MulPositiveOrder(k, m, n);
      MulPositiveOrder(k, n, m + d);
    case CEIL =>
      MulPositiveOrder(k, m - d, n);
      MulPositiveOrder(k, n, m);
    case NEAREST_EVEN =>
      MulSum(k, n, n);
      MulSum(k, m, m);
      MulSum(k, m + m, d);
      MulSum(k, m + m - d, d);
      MulPositiveOrder(k, m + m - d, n + n);
      MulPositiveOrder(k, n + n, m + m + d);
  }

  // ----- division of 128-bit integers

  /** C's truncating quotient. */
  function TruncDiv(n: int, d: int): int
    requires d > 0
  {
    if n >= 0 then n / d else -((-n) / d)
  }

  lemma TruncFacts(n: int, d: int)
    requires d > 0
    ensures var q := TruncDiv(n, d);
            var r := n - Mul(d, q);
            && (n >= 0 ==> 0 <= r < d && 0 <= q <= n) && (n <= 0 ==> -d < r <= 0 && n <= q <= 0)
  {
    hide Mul;
    var a := if n >= 0 then n else -n;
    DivMod(a, d);
    MulSum(d, a / d, -(a / d));
    MulOne(d);
    if a / d < 0 { Spread(d, a / d, 0); }
    MulMonotone(a / d, 1, d);
    MulComm(a / d, d);
    MulOne(a / d);
  }

  /** The correction applied to a truncated quotient `q` with remainder magnitude `r`. */
  function Adjust(mode: Rounding, n: int, d: int, q: int, r: int): int {
    match mode
    case FLOOR => if n < 0 && r != 0 then q - 1 else q
    case CEIL => if n > 0 && r != 0 then q + 1 else q
    case NEAREST_EVEN =>
      if 2 * r > d || (2 * r == d && q % 2 != 0) then q + (if n >= 0 then 1 else -1) else q
  }

  lemma AdjustRounds(mode: Rounding, n: int, d: int)
    requires d > 0
    ensures var q := TruncDiv(n, d);
            var r := n - Mul(d, q);
            Adjust(mode, n, d, q, if r < 0 then -r else r) == Round(mode, n, d)
  {
    hide Mul, Round, TruncDiv;
    var q := TruncDiv(n, d);
    var r := n - Mul(d, q);
    TruncFacts(n, d);
    NextMultiple(d, q);
    RoundingIsRound(mode, n, d, Adjust(mode, n, d, q, if r < 0 then -r else r));
  }

  /** Doubling the remainder, which only nearest-even does, stays inside 128 bits; beyond, C leaves it undefined. */
  ghost predicate Doubles(n: int, d: int, mode: Rounding)
    requires d > 0
  {
    var r := n - Mul(d, TruncDiv(n, d));
    mode == NEAREST_EVEN ==> -TWO_127 < 2 * r < TWO_127
  }

  lemma SmallDoubles(n: int, d: int, mode: Rounding)
    requires 0 < d <= 0x4000_0000_0000_0000_0000_0000_0000_0000
    ensures Doubles(n, d, mode)
  {
    hide Mul, TruncDiv;
    TruncFacts(n, d);
  }

  method RoundDiv(numerator: i128, denominator: i128, mode: Rounding) returns (status: Status, out: i64)
    requires denominator > 0 ==> Doubles(numerator, denominator, mode)
    ensures denominator <= 0 ==> status == INVALID_ARGUMENT
    ensures denominator > 0 ==>
              var q := Round(mode, numerator, denominator);
              && status == (if I64_MIN <= q <= I64_MAX then OK else TIMELINE)
              && (status == OK ==> out == q)
  {
    hide Mul, Round, TruncDiv;
    out := 0;
    if denominator <= 0 { return INVALID_ARGUMENT, 0; }
    TruncFacts(numerator, denominator);
    AdjustRounds(mode, numerator, denominator);
    var q: i128 := TruncDiv(numerator, denominator);
    var r: i128 := numerator - Mul(denominator, q);
    QuotientShrinks(numerator, denominator);
    if r < 0 { r := -r; }
    if mode == FLOOR && numerator < 0 && r != 0 {
      q := q - 1;
    } else if mode == CEIL && numerator > 0 && r != 0 {
      q := q + 1;
    } else if mode == NEAREST_EVEN {
      var twice: i128 := r * 2;
      if twice > denominator || (twice == denominator && q % 2 != 0) {
        q := q + if numerator >= 0 then 1 else -1;
      }
    }
    if q < I64_MIN || q > I64_MAX { return TIMELINE, 0; }
    return OK, q;
  }

  /** An inexact quotient is smaller than its numerator, so correcting it by one cannot overflow. */
  lemma QuotientShrinks(n: int, d: int)
    requires d > 0
    ensures var q := TruncDiv(n, d);
            n != Mul(d, q) ==> (n > 0 ==> q < n) && (n < 0 ==> n < q)
  {
    hide Mul, TruncDiv;
    TruncFacts(n, d);
    var q := TruncDiv(n, d);
    if n != Mul(d, q) && q == n {
      MulOne(n);
      MulComm(d, n);
      if d == 1 {} else if n > 0 { MulMonotone(n, 2, d); NextMultiple(n, 1); }
      else { MulMonotone(-n, 2, d); MulSum(d, n, -n); MulComm(d, -n); MulOne(d); NextMultiple(-n, 1); MulOne(-n); }
    }
  }

  // ----- common factors

  ghost predicate Divides(g: int, a: int) { exists k :: a == Mul(g, k) }

  lemma DividesSum(g: int, a: int, b: int, c: int)
    requires Divides(g, a) && Divides(g, b)
    ensures Divides(g, Mul(a, c) + b)
  {
    hide Mul;
    var i :| a == Mul(g, i);
    var j :| b == Mul(g, j);
    MulAssoc(g, i, c);
    MulSum(g, Mul(i, c), j);
    assert Mul(a, c) + b == Mul(g, Mul(i, c) + j);
  }

  lemma {:induction false} GcdDivides(a: nat, b: nat)
    requires a > 0 || b > 0
    ensures Gcd(a, b) > 0 && Divides(Gcd(a, b), a) && Divides(Gcd(a, b), b)
    decreases b
  {
    hide Mul;
    var g := Gcd(a, b);
    if b == 0 {
      MulOne(a);
      assert a == Mul(a, 1) && 0 == Mul(a, 0);
    } else {
      GcdDivides(b, a % b);
      DivMod(a, b);
      DividesSum(g, b, a % b, a / b);
    }
  }

  /** The exact quotient of a cancellation. */
  lemma Cancel(g: int, a: nat)
    requires g > 0 && Divides(g, a)
    ensures a == Mul(g, a / g) && 0 <= a / g <= a && (a > 0 ==> a / g > 0)
  {
    hide Mul;
    var k :| a == Mul(g, k);
    DivUnique(a, g, k, 0);
    MulOne(g);
    MulOne(k);
    MulComm(g, k);
    if k < 0 { Spread(g, k, 0); } else { MulMonotone(k, 1, g); }
  }

  lemma DividesScaled(g: int, a: int, c: int)
    requires Divides(g, a)
    ensures Divides(g, Mul(a, c)) && Divides(Mul(c, g), Mul(c, a))
  {
    hide Mul;
    var k :| a == Mul(g, k);
    MulAssoc(g, k, c);
    assert Mul(a, c) == Mul(g, Mul(k, c));
    MulAssoc(c, g, k);
    assert Mul(c, a) == Mul(Mul(c, g), k);
  }

  /** Every common divisor divides the gcd. */
  lemma {:induction false} GcdIsGreatest(a: nat, b: nat, k: int)
    requires Divides(k, a) && Divides(k, b)
    ensures Divides(k, Gcd(a, b))
    decreases b
  {
    hide Mul;
    if b > 0 {
      DivMod(a, b);
      DividesSum(k, b, a, -(a / b));
      MulSum(b, a / b, -(a / b));
      MulOne(b);
      GcdIsGreatest(b, a % b, k);
    }
  }

  /** A base is accepted exactly when both terms are positive and share no divisor but one. */
  lemma ReducedMeansCoprime(r: Rational)
    ensures IsReduced(r) <==> r.num > 0 && r.den > 0 && forall k: nat :: k > 0 && Divides(k, r.num) && Divides(k, r.den) ==> k == 1
  {
    hide Mul, Gcd;
    if r.num > 0 && r.den > 0 {
      GcdDivides(r.num, r.den);
      forall k: nat | k > 0 && Divides(k, r.num) && Divides(k, r.den)
        ensures k <= Gcd(r.num, r.den)
      {
        GcdIsGreatest(r.num, r.den, k);
        DivisorBound(k, Gcd(r.num, r.den));
      }
    }
  }

  lemma DivisorBound(k: nat, g: nat)
    requires k > 0 && g > 0 && Divides(k, g)
    ensures k <= g
  {
    hide Mul;
    var j :| g == Mul(k, j);
    if j <= 0 { MulMonotone(k, j, 0); } else { MulMonotone(k, 1, j); }
    MulOne(k);
  }

  /** `tide_rational` as a variable that is reduced in place. */
  class RationalCell {
    var value: Rational

    constructor (value: Rational)
      ensures this.value == value
    {
      this.value := value;
    }

    method Reduce() returns (status: Status)
      modifies this
      ensures status == if old(value).num == 0 || old(value).den == 0 then TIMELINE else OK
      ensures status == OK ==> IsReduced(value) && Mul(value.num, old(value).den) == Mul(old(value).num, value.den)
      ensures status != OK ==> value == old(value)
    {
      hide Mul, Gcd, IsReduced;
      if value.num == 0 || value.den == 0 { return TIMELINE; }
      var g := ComputeGcd(value.num, value.den);
      QuotientsAreReduced(value, g);
      value := Rational(value.num / g, value.den / g);
      return OK;
    }
  }

  lemma QuotientsAreReduced(r: Rational, g: nat)
    requires r.num > 0 && r.den > 0 && g == Gcd(r.num, r.den)
    ensures g > 0 && 0 <= r.num / g <= r.num && 0 <= r.den / g <= r.den
    ensures IsReduced(Rational(r.num / g, r.den / g))
    ensures Mul(r.num / g, r.den) == Mul(r.num, r.den / g)
  {
    hide Mul, Gcd;
    GcdDivides(r.num, r.den);
    Cancel(g, r.num);
    Cancel(g, r.den);
    var a, b := r.num / g, r.den / g;
    MulComm(g, b);
    MulAssoc(a, b, g);
    MulComm(g, a);
    MulAssoc(a, g, b);
    GcdDivides(a, b);
    var h := Gcd(a, b);
    DividesScaled(h, a, g);
    DividesScaled(h, b, g);
    GcdIsGreatest(r.num, r.den, Mul(g, h));
    if h > 1 {
      Spread(g, 1, h);
      MulOne(g);
      DivisorBound(Mul(g, h), g);
    }
  }

  // ----- conversion

  /** value * source / destination as a fraction over the uncancelled terms. */
  function Numer(value: i64, source: Rational, destination: Rational): int {
    Mul(value, Mul(source.num, destination.den))
  }

  function Denom(source: Rational, destination: Rational): int { Mul(source.den, destination.num) }

  lemma DenomPositive(source: Rational, destination: Rational)
    requires source.den != 0 && destination.num != 0
    ensures Denom(source, destination) > 0
  {
    hide Mul;
    Spread(source.den, 0, destination.num);
    MulOne(source.den);
  }

  /** The specification of a conversion between valid bases. */
  function Converted(value: i64, source: Rational, destination: Rational, mode: Rounding): int
    requires IsReduced(source) && IsReduced(destination)
  {
    DenomPositive(source, destination);
    Round(mode, Numer(value, source, destination), Denom(source, destination))
  }

  lemma MulSwap4(a: int, b: int, c: int, d: int)
    ensures Mul(Mul(a, b), Mul(c, d)) == Mul(Mul(a, c), Mul(b, d))
  {
    hide Mul;
    MulAssoc(a, b, Mul(c, d));
    MulAssoc(b, c, d);
    MulComm(b, c);
    MulAssoc(c, b, d);
    MulAssoc(a, c, Mul(b, d));
  }

  /** Cancelling the two gcds scales both terms of the fraction by the same positive factor. */
  lemma CancelledFraction(value: i64, sn: nat, sd: nat, dn: nat, dd: nat, g1: nat, g2: nat)
    requires g1 > 0 && g2 > 0 && Divides(g1, sn) && Divides(g1, dn) && Divides(g2, sd) && Divides(g2, dd)
    ensures var k := Mul(g1, g2);
            && k > 0
            && Mul(value, Mul(sn, dd)) == Mul(k, Mul(value, Mul(sn / g1, dd / g2)))
            && Mul(sd, dn) == Mul(k, Mul(dn / g1, sd / g2))
  {
    hide Mul;
    Cancel(g1, sn);
    Cancel(g1, dn);
    Cancel(g2, sd);
    Cancel(g2, dd);
    Spread(g1, 0, g2);
    MulOne(g1);
    var k := Mul(g1, g2);
    MulSwap4(g1, sn / g1, g2, dd / g2);
    var t := Mul(sn / g1, dd / g2);
    MulComm(value, Mul(k, t));
    MulAssoc(k, t, value);
    MulComm(t, value);
    MulComm(sd, dn);
    MulSwap4(g1, dn / g1, g2, sd / g2);
  }

  lemma ProductBound(a: int, b: int, bound: int, limit: int)
    requires -bound <= a <= bound && 0 <= b <= limit
    ensures -Mul(bound, limit) <= Mul(a, b) <= Mul(bound, limit)
  {
    hide Mul;
    MulMonotone(bound, b, limit);
    MulComm(a, b);
    MulComm(bound, b);
    MulMonotone(b, a, bound);
    MulMonotone(b, -bound, a);
    MulSum(b, bound, -bound);
    MulOne(b);
  }

  method TimeConvert(value: i64, source: Rational, destination: Rational, mode: Rounding)
    returns (status: Status, out: i64)
    ensures !(IsReduced(source) && IsReduced(destination)) ==> status == TIMELINE
    ensures IsReduced(source) && IsReduced(destination) ==>
              var q := Converted(value, source, destination, mode);
              && status == (if I64_MIN <= q <= I64_MAX then OK else TIMELINE)
              && (status == OK ==> out == q)
  {
    hide Mul, Round, Gcd, IsReduced;
    if !IsReduced(source) || !IsReduced(destination) { return TIMELINE, 0; }
    NonZero(source, destination);
    var sn: nat, sd: nat, dn: nat, dd: nat := source.num, source.den, destination.num, destination.den;
    var g1 := ComputeGcd(sn, dn);
    var g2 := ComputeGcd(dd, sd);
    NoOverflow(value, source, destination, g1, g2);
    var num: nat := sn / g1;
    var denominator: i128 := dn / g1;
    denominator := Mul(denominator, sd / g2);
    var numerator: i128 := Mul(value, num);
    numerator := Mul(numerator, dd / g2);
    CancelledRounding(value, source, destination, mode, g1, g2);
    SmallDoubles(numerator, denominator, mode);
    status, out := RoundDiv(numerator, denominator, mode);
  }

  /** Every intermediate of the conversion fits in 128 bits: the product stays below 2^127. */
  lemma NoOverflow(value: i64, source: Rational, destination: Rational, g1: nat, g2: nat)
    requires source.num != 0 && source.den != 0 && destination.num != 0 && destination.den != 0
    requires g1 == Gcd(source.num, destination.num) && g2 == Gcd(destination.den, source.den)
    ensures g1 > 0 && g2 > 0
    ensures var num, e, h, l := source.num / g1, destination.num / g1, destination.den / g2, source.den / g2;
            && 0 < Mul(e, l) < 0x1_0000_0000_0000_0000
            && 0 <= num <= 0xFFFF_FFFF && 0 <= e <= 0xFFFF_FFFF
            && -TWO_127 < Mul(value, num) < TWO_127
            && -TWO_127 < Mul(Mul(value, num), h) < TWO_127
  {
    hide Mul, Gcd;
    GcdDivides(source.num, destination.num);
    GcdDivides(destination.den, source.den);
    Cancel(g1, source.num);
    Cancel(g1, destination.num);
    Cancel(g2, source.den);
    Cancel(g2, destination.den);
    var num, e, h, l := source.num / g1, destination.num / g1, destination.den / g2, source.den / g2;
    Bounds();
    ProductBound(e, l, 0xFFFF_FFFF, 0xFFFF_FFFF);
    Spread(e, 0, l);
    MulOne(e);
    ProductBound(num, h, 0xFFFF_FFFF, 0xFFFF_FFFF);
    MulNonNegative(num, h);
    ProductBound(value, Mul(num, h), 0x8000_0000_0000_0000, 0xFFFF_FFFE_0000_0001);
    MulAssoc(value, num, h);
    ProductBound(value, num, 0x8000_0000_0000_0000, 0xFFFF_FFFF);
  }

  /** Rounding the cancelled fraction is rounding the original one. */
  lemma CancelledRounding(value: i64, source: Rational, destination: Rational, mode: Rounding, g1: nat, g2: nat)
    requires IsReduced(source) && IsReduced(destination)
    requires g1 == Gcd(source.num, destination.num) > 0 && g2 == Gcd(destination.den, source.den) > 0
    requires Mul(destination.num / g1, source.den / g2) > 0
    ensures Round(mode, Mul(Mul(value, source.num / g1), destination.den / g2),
                  Mul(destination.num / g1, source.den / g2))
         == Converted(value, source, destination, mode)
  {
    hide Mul, Round, Gcd, IsReduced, IsRounding;
    NonZero(source, destination);
    GcdDivides(source.num, destination.num);
    GcdDivides(destination.den, source.den);
    var n, d := Mul(Mul(value, source.num / g1), destination.den / g2), Mul(destination.num / g1, source.den / g2);
    MulAssoc(value, source.num / g1, destination.den / g2);
    CancelledFraction(value, source.num, source.den, destination.num, destination.den, g1, g2);
    RoundIsRounding(mode, n, d);
    RoundingScales(mode, n, d, Round(mode, n, d), Mul(g1, g2));
    DenomPositive(source, destination);
    RoundingIsRound(mode, Numer(value, source, destination), Denom(source, destination), Round(mode, n, d));
  }

  lemma Bounds()
    ensures Mul(0xFFFF_FFFF, 0xFFFF_FFFF) == 0xFFFF_FFFE_0000_0001
    ensures Mul(0x8000_0000_0000_0000, 0xFFFF_FFFE_0000_0001) < TWO_127
    ensures Mul(0x8000_0000_0000_0000, 0xFFFF_FFFF) < TWO_127
  {}

  // ----- properties of conversion

  /** The converted value is the rounding of value * source / destination, written out. */
  lemma ConversionIsExact(value: i64, source: Rational, destination: Rational, mode: Rounding)
    requires IsReduced(source) && IsReduced(destination)
    ensures var q := Converted(value, source, destination, mode);
            var n, d := value * (source.num * destination.den), source.den * destination.num;
            && d > 0
            && (mode == FLOOR ==> d * q <= n < d * q + d)
            && (mode == CEIL ==> d * q - d < n <= d * q)
            && (mode == NEAREST_EVEN ==>
                  && d * q * 2 - d <= 2 * n <= d * q * 2 + d
                  && ((2 * n == d * q * 2 - d || 2 * n == d * q * 2 + d) ==> q % 2 == 0))
  {
    hide Round, IsReduced;
    NonZero(source, destination);
    DenomPositive(source, destination);
    RoundIsRounding(mode, Numer(value, source, destination), Denom(source, destination));
  }

  /** Conversion is monotone in the value, in each mode. */
  lemma ConversionMonotone(v: i64, w: i64, source: Rational, destination: Rational, mode: Rounding)
    requires IsReduced(source) && IsReduced(destination) && v <= w
    ensures Converted(v, source, destination, mode) <= Converted(w, source, destination, mode)
  {
    hide Mul, Round, IsReduced, IsRounding;
    var a, d := Mul(source.num, destination.den), Denom(source, destination);
    NonZero(source, destination);
    DenomPositive(source, destination);
    MulNonNegative(source.num, destination.den);
    MulMonotone(a, v, w);
    MulComm(a, v);
    MulComm(a, w);
    RoundIsRounding(mode, Numer(v, source, destination), d);
    RoundIsRounding(mode, Numer(w, source, destination), d);
    RoundingMonotone(mode, Numer(v, source, destination), Numer(w, source, destination), d,
                     Converted(v, source, destination, mode), Converted(w, source, destination, mode));
  }

  lemma NonZero(source: Rational, destination: Rational)
    requires IsReduced(source) && IsReduced(destination)
    ensures source.num != 0 && source.den != 0 && destination.num != 0 && destination.den != 0
  {}

  /** The destination tick is no longer than the source tick. */
  predicate FinerOrEqual(destination: Rational, source: Rational) {
    Mul(source.den, destination.num) <= Mul(source.num, destination.den)
  }

  /**
    Going to a finer base and back recovers the value: nearest-even both ways, and floor there with ceiling
    back.
   */
  lemma RoundTripRecovers(value: i64, source: Rational, destination: Rational, there: Rounding, back: Rounding)
    requires IsReduced(source) && IsReduced(destination) && FinerOrEqual(destination, source)
    requires (there == NEAREST_EVEN && back == NEAREST_EVEN) || (there == FLOOR && back == CEIL)
    requires I64_MIN <= Converted(value, source, destination, there) <= I64_MAX
    ensures Converted(Converted(value, source, destination, there), destination, source, back) == value
  {
    hide Mul, Round, IsReduced, Gcd;
    NonZero(source, destination);
    DenomPositive(source, destination);
    DenomPositive(destination, source);
    var y := Converted(value, source, destination, there);
    var a, b := Mul(source.num, destination.den), Denom(source, destination);
    RoundIsRounding(there, Numer(value, source, destination), b);
    MulComm(source.num, destination.den);
    MulComm(source.den, destination.num);
    assert Denom(destination, source) == a && Numer(y, destination, source) == Mul(y, b);
    MulComm(y, b);
    MulComm(value, a);
    if there == NEAREST_EVEN && a == b { TieIsImpossible(a, value, y); }
    RoundingIsRound(back, Mul(y, b), a, value);
  }

  lemma TieIsImpossible(a: int, v: int, y: int)
    requires a > 0
    ensures 2 * (Mul(a, v) - Mul(a, y)) != a && 2 * (Mul(a, v) - Mul(a, y)) != -a
  {
    hide Mul;
    if v < y { Spread(a, v, y); } else if y < v { Spread(a, y, v); }
  }
}
