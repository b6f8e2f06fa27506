/** Python's decimal arithmetic under the default context (28 significant
    digits, half-even rounding), for non-negative finite values, as far as
    the Wine stock-line price needs it. Unlike the rest of the model, where
    values are exact, here a quotient, product or sum is rounded to 28
    digits the way Decimal rounds it. Each operation is stated against the
    exact result it rounds, on integer coefficients brought to a common
    exponent. The module exists to model the Wine price exactly as the
    source computes it (README, Findings). */
module PyDecimal {
  import opened Options
  import Money
  import Modifiers

  /** A non-negative finite Decimal: the value coef * 10^exp. */
  datatype Dec = Dec(coef: nat, exp: int)

  /** The default context's precision, in significant digits. */
  const Prec := 28

  /** 10^Prec, the least coefficient with more than Prec digits. */
  const CoefLimit: nat := 10000000000000000000000000000

  function Pow10(n: nat): (r: nat)
    ensures r >= 1
  {
    if n == 0 then 1 else 10 * Pow10(n - 1)
  }

  /** The number of decimal digits of n, len(str(n)); zero has one. */
  function Digits(n: nat): (d: nat)
    ensures d >= 1
  {
    if n < 10 then 1 else 1 + Digits(n / 10)
  }

  /** The number a Decimal stands for. */
  function Value(d: Dec): real {
    if d.exp >= 0 then (d.coef * Pow10(d.exp)) as real
    else d.coef as real / Pow10(-d.exp) as real
  }

  /** 10^(m + n) == 10^m * 10^n. */
  lemma {:induction false} Pow10Add(m: nat, n: nat)
    ensures Pow10(m + n) == Pow10(m) * Pow10(n)
  {
    if n > 0 {
      Pow10Add(m, n - 1);
      calc {
        Pow10(m + n);
        10 * Pow10(m + n - 1);
        10 * (Pow10(m) * Pow10(n - 1));
        Pow10(m) * (10 * Pow10(n - 1));
      }
    }
  }

  /** A number has at most k digits exactly when it is below 10^k. */
  lemma {:induction false} DigitsBound(n: nat, k: nat)
    requires k >= 1
    ensures Digits(n) <= k <==> n < Pow10(k)
  {
    if n >= 10 && k >= 2 {
      DigitsBound(n / 10, k - 1);
      assert Pow10(k) == 10 * Pow10(k - 1);
    }
  }

  /** CoefLimit is 10^Prec. */
  lemma {:induction false} CoefLimitIsPower()
    ensures Pow10(Prec) == CoefLimit
  {
    Pow10Values();
  }

  /** A number has at most Prec digits exactly when it is below CoefLimit. */
  lemma {:induction false} DigitsAtMostPrec(n: nat)
    ensures Digits(n) <= Prec <==> n < CoefLimit
  {
    DigitsBound(n, Prec);
    CoefLimitIsPower();
  }

  /** A number from 10^(k-1) up to (not including) 10^k has k digits. */
  lemma {:induction false} DigitsBetween(n: nat, k: nat)
    requires 1 <= k && Pow10(k - 1) <= n < Pow10(k)
    ensures Digits(n) == k
  {
    DigitsBound(n, k);
    if k > 1 {
      DigitsBound(n, k - 1);
    }
  }

  /** A number with k digits is below 10^k, and a positive one is at least 10^(k-1). */
  lemma {:induction false} DigitsRange(n: nat)
    ensures n < Pow10(Digits(n))
    ensures n >= 1 ==> Pow10(Digits(n) - 1) <= n
  {
    DigitsBound(n, Digits(n));
    if Digits(n) > 1 {
      DigitsBound(n, Digits(n) - 1);
    }
  }

  /** c * unit is x rounded up to a multiple of unit: the least multiple at
      or above x (ROUND_UP, on non-negative values). */
  predicate RoundsUpTo(x: nat, c: nat, unit: nat) {
    x <= c * unit < x + unit
  }

  /** c * unit is x rounded half-even to a multiple of unit: no further
      than half a unit from x, and an even c when x lies half-way. */
  predicate RoundsHalfEvenTo(x: nat, c: nat, unit: nat) {
    2 * (c * unit) <= 2 * x + unit && 2 * x <= 2 * (c * unit) + unit &&
    (2 * (c * unit) == 2 * x + unit || 2 * x == 2 * (c * unit) + unit ==> c % 2 == 0)
  }

  /** r is d rounded up to r's exponent (exact when no digit is lost). */
  predicate RoundedUp(d: Dec, r: Dec) {
    if r.exp <= d.exp then r.coef == d.coef * Pow10(d.exp - r.exp)
    else RoundsUpTo(d.coef, r.coef, Pow10(r.exp - d.exp))
  }

  /** r is d rounded half-even to r's exponent (exact when no digit is lost). */
  predicate RoundedHalfEven(d: Dec, r: Dec) {
    if r.exp <= d.exp then r.coef == d.coef * Pow10(d.exp - r.exp)
    else RoundsHalfEvenTo(d.coef, r.coef, Pow10(r.exp - d.exp))
  }

  /** x / unit rounded up: the integer step of ROUND_UP. */
  function CeilDiv(x: nat, unit: nat): (c: nat)
    requires unit > 0
    ensures RoundsUpTo(x, c, unit)
  {
    var q, rem := x / unit, x % unit;
    assert (q + 1) * unit == q * unit + unit;
    if rem != 0 then q + 1 else q
  }

  /** x / unit rounded half-even: the integer step of ROUND_HALF_EVEN. */
  function HalfEvenDiv(x: nat, unit: nat): (c: nat)
    requires unit > 0
    ensures RoundsHalfEvenTo(x, c, unit)
  {
    var qr := DivMod(x, unit);
    var q, rem := qr.0, qr.1;
    if 2 * rem > unit || (2 * rem == unit && q % 2 == 1) then
      HalfEvenUp(x, q, rem, unit);
      q + 1
    else
      HalfEvenDown(x, q, rem, unit);
      q
  }

  lemma {:induction false} HalfEvenUp(x: nat, q: nat, rem: nat, unit: nat)
    requires x == q * unit + rem && rem < unit
    requires 2 * rem > unit || (2 * rem == unit && q % 2 == 1)
    ensures RoundsHalfEvenTo(x, q + 1, unit)
  {
    assert (q + 1) * unit == x - rem + unit;
  }

  lemma {:induction false} HalfEvenDown(x: nat, q: nat, rem: nat, unit: nat)
    requires x == q * unit + rem && rem < unit
    requires !(2 * rem > unit || (2 * rem == unit && q % 2 == 1))
    ensures RoundsHalfEvenTo(x, q, unit)
  {
    assert q * unit == x - rem;
  }

  /** Rounding to a multiple of unit, then dropping one more digit, rounds
      to a multiple of ten units, when the first result is a whole number of
      tens: no tie can arise at the coarser unit. */
  lemma {:induction false} CarryKeepsRounding(x: nat, c: nat, unit: nat)
    requires unit > 0 && RoundsHalfEvenTo(x, 10 * c, unit)
    ensures RoundsHalfEvenTo(x, c, 10 * unit)
  {
    assert (10 * c) * unit == c * (10 * unit);
  }

  /** Half-even rounding of an x below unit * p gives at most p units. */
  lemma {:induction false} RoundingBound(x: nat, c: nat, unit: nat, p: nat)
    requires unit > 0 && x < unit * p && RoundsHalfEvenTo(x, c, unit)
    ensures c <= p
  {
    assert c * unit < (p + 1) * unit;
    FactorLess(c, p + 1, unit);
  }

  /** A positive factor can be cancelled from a strict inequality. */
  lemma {:induction false} FactorLess(a: int, b: int, u: int)
    requires u > 0 && a * u < b * u
    ensures a < b
  {
    assert (b - a) * u == b * u - a * u;
  }

  /** _fix: a result with more than Prec digits is rounded, half-even, to
      Prec significant digits; a carry out of the top digit drops a zero. */
  function Fix(d: Dec): (r: Dec)
    ensures r.exp >= d.exp && Digits(r.coef) <= Prec
    ensures RoundedHalfEven(d, r)
    ensures Digits(d.coef) <= Prec ==> r == d
    ensures Digits(d.coef) > Prec ==> r.exp > d.exp && Digits(r.coef) == Prec
  {
    var n := Digits(d.coef);
    if n <= Prec then d
    else
      var drop := n - Prec;
      var unit := Pow10(drop);
      var c := HalfEvenDiv(d.coef, unit);
      FixBound(d.coef, drop, c);
      FixKeepsPrec(d.coef, drop, c);
      if Digits(c) > Prec then
        FixCarry(d.coef, drop, c);
        Dec(c / 10, d.exp + drop + 1)
      else
        FullPrecision(c);
        Dec(c, d.exp + drop)
  }

  /** Rounding a coefficient of drop + Prec digits to a multiple of
      10^drop keeps at least 10^(Prec - 1) units. */
  lemma {:induction false} FixKeepsPrec(x: nat, drop: nat, c: nat)
    requires Digits(x) == drop + Prec && RoundsHalfEvenTo(x, c, Pow10(drop))
    ensures Pow10(Prec - 1) <= c
  {
    assert x != 0;
    DigitsRange(x);
    Pow10Add(drop, Prec - 1);
    RoundingBelow(x, c, Pow10(drop), Pow10(Prec - 1));
  }

  /** Half-even rounding of an x at or above unit * lo gives at least lo units. */
  lemma {:induction false} RoundingBelow(x: nat, c: nat, unit: nat, lo: nat)
    requires unit > 0 && unit * lo <= x && RoundsHalfEvenTo(x, c, unit)
    ensures lo <= c
  {
    assert (c + 1) * unit == c * unit + unit;
    FactorLess(lo, c + 1, unit);
  }

  /** A coefficient from 10^(Prec - 1) up to (not including) 10^Prec has
      exactly Prec digits. */
  lemma {:induction false} FullPrecision(c: nat)
    requires Pow10(Prec - 1) <= c && Digits(c) <= Prec
    ensures Digits(c) == Prec
  {
    DigitsAtMostPrec(c);
    CoefLimitIsPower();
    DigitsBetween(c, Prec);
  }

  /** Rounding a coefficient of drop + Prec digits to a multiple of
      10^drop leaves at most 10^Prec units. */
  lemma {:induction false} FixBound(x: nat, drop: nat, c: nat)
    requires Digits(x) == drop + Prec && RoundsHalfEvenTo(x, c, Pow10(drop))
    ensures c <= CoefLimit
  {
    BelowPower(x, drop, Prec);
    RoundingBound(x, c, Pow10(drop), Pow10(Prec));
    CoefLimitIsPower();
  }

  /** A number of drop + k digits is below 10^drop * 10^k. */
  lemma {:induction false} BelowPower(x: nat, drop: nat, k: nat)
    requires Digits(x) == drop + k
    ensures x < Pow10(drop) * Pow10(k)
  {
    DigitsRange(x);
    Pow10Add(drop, k);
  }

  /** The carry case of _fix: the rounded coefficient is 10^Prec, which
      drops its last zero and stays the same rounding at a ten times larger
      unit. */
  lemma {:induction false} FixCarry(x: nat, drop: nat, c: nat)
    requires c <= CoefLimit && Digits(c) > Prec && RoundsHalfEvenTo(x, c, Pow10(drop))
    ensures c % 10 == 0 && Digits(c / 10) <= Prec
    ensures RoundsHalfEvenTo(x, c / 10, Pow10(drop + 1))
    ensures Digits(c / 10) == Prec
  {
    DigitsAtMostPrec(c);
    assert c == CoefLimit;
    DigitsAtMostPrec(c / 10);
    CarryKeepsRounding(x, c / 10, Pow10(drop));
    CoefLimitIsPower();
    DigitsBetween(c / 10, Prec);
  }

  /** Multiplying both sides of an inequality by a natural number keeps it. */
  lemma {:induction false} MulMonotone(a: int, b: int, k: nat)
    requires a <= b
    ensures a * k <= b * k
  {
    assert b * k - a * k == (b - a) * k;
  }

  /** Scaling both x and the unit by v keeps a half-even rounding. */
  lemma {:induction false} ScaleRounding(x: nat, c: nat, u: nat, v: nat)
    requires v > 0 && RoundsHalfEvenTo(x, c, u)
    ensures RoundsHalfEvenTo(x * v, c, u * v)
  {
    var cu, cuv := c * u, c * (u * v);
    ScaleCompare(2 * cu, 2 * x + u, v);
    ScaleCompare(2 * x, 2 * cu + u, v);
    assert (2 * cu) * v == 2 * cuv by {
      assert cuv == cu * v;
    }
    assert (2 * cu + u) * v == 2 * cuv + u * v by {
      assert cuv == cu * v;
    }
    assert (2 * x + u) * v == 2 * (x * v) + u * v;
    assert (2 * x) * v == 2 * (x * v);
  }

  /** Multiplying by a positive v keeps order and equality both ways. */
  lemma {:induction false} ScaleCompare(a: int, b: int, v: nat)
    requires v > 0
    ensures a <= b <==> a * v <= b * v
    ensures a == b <==> a * v == b * v
  {
    assert b * v - a * v == (b - a) * v;
    if a < b {
      MulMonotone(1, b - a, v);
    } else if b < a {
      MulMonotone(1, a - b, v);
      assert a * v - b * v == (a - b) * v;
    }
  }

  /** A half-even rounding of d to an exponent no smaller than d's, as an
      integer rounding of d's coefficient. */
  lemma {:induction false} RoundedAsInteger(d: Dec, r: Dec)
    requires RoundedHalfEven(d, r) && r.exp >= d.exp
    ensures RoundsHalfEvenTo(d.coef, r.coef, Pow10(r.exp - d.exp))
  {
  }

  /** a * b: the exact product, a.coef * b.coef at exponent a.exp + b.exp,
      rounded half-even to Prec digits. */
  function Mul(a: Dec, b: Dec): (r: Dec)
    ensures Digits(r.coef) <= Prec && r.exp >= a.exp + b.exp
    ensures RoundedHalfEven(Dec(a.coef * b.coef, a.exp + b.exp), r)
    ensures Digits(a.coef * b.coef) <= Prec ==> r == Dec(a.coef * b.coef, a.exp + b.exp)
    ensures Digits(a.coef * b.coef) > Prec ==> Digits(r.coef) == Prec
  {
    Fix(Dec(a.coef * b.coef, a.exp + b.exp))
  }

  /** The exact sum of a and b, written at the smaller of their exponents. */
  function ExactSum(a: Dec, b: Dec): Dec {
    var e := if a.exp <= b.exp then a.exp else b.exp;
    Dec(a.coef * Pow10(a.exp - e) + b.coef * Pow10(b.exp - e), e)
  }

  /** a + b: the exact sum rounded half-even to Prec digits. */
  function Add(a: Dec, b: Dec): (r: Dec)
    ensures Digits(r.coef) <= Prec && r.exp >= ExactSum(a, b).exp
    ensures RoundedHalfEven(ExactSum(a, b), r)
    ensures Digits(ExactSum(a, b).coef) <= Prec ==> r == ExactSum(a, b)
    ensures Digits(ExactSum(a, b).coef) > Prec ==> Digits(r.coef) == Prec
  {
    Fix(ExactSum(a, b))
  }

  /** An exact quotient loses trailing zeros until it reaches the ideal
      exponent (that of the dividend less that of the divisor). */
  function StripZeros(coef: nat, exp: int, ideal: int): (r: Dec)
    ensures r.exp >= exp && r.coef * Pow10(r.exp - exp) == coef
    ensures exp <= ideal ==> r.exp <= ideal
    ensures r.exp < ideal ==> r.coef % 10 != 0
    decreases ideal - exp
  {
    if exp < ideal && coef % 10 == 0 then
      var r := StripZeros(coef / 10, exp + 1, ideal);
      assert Pow10(r.exp - exp) == 10 * Pow10(r.exp - exp - 1);
      assert r.coef * (10 * Pow10(r.exp - exp - 1)) == 10 * (r.coef * Pow10(r.exp - exp - 1));
      r
    else
      assert Pow10(0) == 1;
      Dec(coef, exp)
  }

  /** The integer quotient step of a division: inexact quotients are nudged
      off a multiple of 5 so that _fix rounds them correctly, exact ones
      lose trailing zeros down to the ideal exponent. The result is
      num / den at exponent exp, rounded half-even to Prec digits. */
  function Quotient(num: nat, den: nat, exp: int, ideal: int): (r: Dec)
    requires den > 0 && (num == 0 || num >= CoefLimit * den)
    ensures r.exp >= exp && Digits(r.coef) <= Prec
    ensures RoundsHalfEvenTo(num, r.coef, Pow10(r.exp - exp) * den)
    ensures Digits(r.coef) == Prec || num == r.coef * (Pow10(r.exp - exp) * den)
  {
    var qr := DivMod(num, den);
    if qr.1 != 0 then InexactQuotient(num, den, qr.0, qr.1, exp)
    else ExactQuotient(num, den, qr.0, exp, ideal)
  }

  /** The inexact branch of Quotient: the integer quotient f is nudged off
      a multiple of 5 (the remainder is not zero) and rounded by _fix. */
  function InexactQuotient(num: nat, den: nat, f: nat, rem: nat, exp: int): (r: Dec)
    requires den > 0 && num == f * den + rem && 0 < rem < den && num >= CoefLimit * den
    ensures r.exp >= exp && Digits(r.coef) <= Prec
    ensures RoundsHalfEvenTo(num, r.coef, Pow10(r.exp - exp) * den)
    ensures Digits(r.coef) == Prec
  {
    var g := if f % 5 == 0 then f + 1 else f;
    var r := Fix(Dec(g, exp));
    NudgedQuotient(num, den, f, rem, g, exp, r);
    r
  }

  /** The exact branch of Quotient: trailing zeros are stripped down to the
      ideal exponent, then _fix rounds. */
  function ExactQuotient(num: nat, den: nat, coeff: nat, exp: int, ideal: int): (r: Dec)
    requires den > 0 && num == coeff * den
    ensures r.exp >= exp && Digits(r.coef) <= Prec
    ensures RoundsHalfEvenTo(num, r.coef, Pow10(r.exp - exp) * den)
    ensures Digits(r.coef) == Prec || num == r.coef * (Pow10(r.exp - exp) * den)
  {
    var sz := StripZeros(coeff, exp, ideal);
    var r := Fix(sz);
    FixedQuotient(num, den, coeff, sz, r, exp);
    r
  }

  /** _fix of the stripped quotient, from its contract: the rounding of
      num / den, and exact unless it keeps Prec digits. */
  lemma {:induction false} FixedQuotient(num: nat, den: nat, coeff: nat, sz: Dec, r: Dec, exp: int)
    requires den > 0 && num == coeff * den && sz.exp >= exp && sz.coef * Pow10(sz.exp - exp) == coeff
    requires r.exp >= sz.exp && Digits(r.coef) <= Prec && RoundedHalfEven(sz, r)
    requires Digits(sz.coef) <= Prec ==> r == sz
    requires Digits(sz.coef) > Prec ==> Digits(r.coef) == Prec
    ensures r.exp >= exp
    ensures RoundsHalfEvenTo(num, r.coef, Pow10(r.exp - exp) * den)
    ensures Digits(r.coef) == Prec || num == r.coef * (Pow10(r.exp - exp) * den)
  {
    RoundedAsInteger(sz, r);
    ExactQuotientRounding(num, den, coeff, sz, r, exp);
    UnroundedQuotient(num, den, coeff, sz, r, exp);
  }

  /** An exact quotient that _fix leaves alone is num / den with nothing
      lost; one that _fix rounds keeps Prec digits. */
  lemma {:induction false} UnroundedQuotient(num: nat, den: nat, coeff: nat, sz: Dec, r: Dec, exp: int)
    requires num == coeff * den && sz.exp >= exp && sz.coef * Pow10(sz.exp - exp) == coeff
    requires Digits(sz.coef) <= Prec ==> r == sz
    requires Digits(sz.coef) > Prec ==> Digits(r.coef) == Prec
    ensures Digits(r.coef) == Prec || num == r.coef * (Pow10(r.exp - exp) * den)
  {
    if Digits(sz.coef) <= Prec {
      Assoc(sz.coef, Pow10(sz.exp - exp), den);
    }
  }

  /** Integer division with remainder, on naturals. */
  function DivMod(num: nat, den: nat): (qr: (nat, nat))
    requires den > 0
    ensures num == qr.0 * den + qr.1 && qr.1 < den
  {
    (num / den, num % den)
  }

  /** _fix of the nudged quotient g rounds num / den itself. */
  lemma {:induction false} NudgedQuotient(num: nat, den: nat, f: nat, rem: nat, g: nat, exp: int, r: Dec)
    requires den > 0 && num == f * den + rem && 0 < rem < den && num >= CoefLimit * den
    requires g == (if f % 5 == 0 then f + 1 else f)
    requires r.exp >= exp && RoundedHalfEven(Dec(g, exp), r) && (Digits(g) > Prec ==> r.exp > exp)
    ensures RoundsHalfEvenTo(num, r.coef, Pow10(r.exp - exp) * den)
    ensures Digits(g) > Prec
  {
    assert Digits(g) > Prec by {
      QuotientLarge(num, den, f, rem, CoefLimit);
      DigitsAtMostPrec(g);
    }
    var k: nat := r.exp - exp - 1;
    var w := Pow10(k);
    assert RoundsHalfEvenTo(g, r.coef, 10 * w) by {
      PowerSplit(k + 1, 1, k);
      assert Pow10(1) == 10;
      RoundedAsInteger(Dec(g, exp), r);
    }
    NudgedRounding(num, den, f, rem, g, r.coef, w);
    assert Pow10(r.exp - exp) == 10 * w by {
      PowerSplit(k + 1, 1, k);
    }
  }

  /** A dividend of at least 10^Prec divisors has a quotient of at least 10^Prec. */
  lemma {:induction false} QuotientLarge(num: nat, den: nat, coeff: nat, rem: nat, p: nat)
    requires den > 0 && num == coeff * den + rem && rem < den && num >= p * den
    ensures coeff >= p
  {
    assert (coeff + 1) * den == coeff * den + den;
    FactorLess(p, coeff + 1, den);
  }

  /** The exact branch of Quotient: stripping zeros and _fix keep the
      rounding of coeff, and so of num / den. */
  lemma {:induction false} ExactQuotientRounding(num: nat, den: nat, coeff: nat, sz: Dec, r: Dec, exp: int)
    requires den > 0 && num == coeff * den
    requires sz.exp >= exp && sz.coef * Pow10(sz.exp - exp) == coeff
    requires r.exp >= sz.exp && RoundsHalfEvenTo(sz.coef, r.coef, Pow10(r.exp - sz.exp))
    ensures RoundsHalfEvenTo(num, r.coef, Pow10(r.exp - exp) * den)
  {
    var w, v := Pow10(r.exp - sz.exp), Pow10(sz.exp - exp);
    ScaleRounding(sz.coef, r.coef, w, v);
    Pow10Add(r.exp - sz.exp, sz.exp - exp);
    ScaleRounding(coeff, r.coef, w * v, den);
  }

  /** A rounding of g to a multiple of ten units, g not a multiple of 5,
      is never a tie: it lies strictly within half a unit. */
  lemma {:induction false} NoTie(g: nat, c: nat, w: nat)
    requires g % 5 != 0 && RoundsHalfEvenTo(g, c, 10 * w)
    ensures 10 * (c * w) + 1 <= g + 5 * w && g + 1 <= 10 * (c * w) + 5 * w
  {
    var cw := c * w;
    assert c * (10 * w) == 10 * cw;
    if 10 * cw == g + 5 * w {
      FiveDivides(g, 2 * cw - w);
      assert false;
    }
    if g == 10 * cw + 5 * w {
      FiveDivides(g, 2 * cw + w);
      assert false;
    }
  }

  /** Five times anything is a multiple of 5. */
  lemma {:induction false} FiveDivides(g: nat, t: int)
    requires g == 5 * t
    ensures g % 5 == 0
  {
  }

  /** Bounds on the quotient, multiplied out by the divisor. */
  lemma {:induction false} ScaleBounds(t: nat, w: nat, f: nat, den: nat)
    requires 10 * t <= f + 1 + 5 * w - 1 && f + 1 <= 10 * t + 5 * w
    ensures 10 * (t * den) <= f * den + 5 * (w * den)
    ensures f * den + den <= 10 * (t * den) + 5 * (w * den)
  {
    MulMonotone(10 * t, f + 5 * w, den);
    MulMonotone(f + 1, 10 * t + 5 * w, den);
    assert (10 * t) * den == 10 * (t * den);
    assert (f + 5 * w) * den == f * den + 5 * (w * den);
    assert (10 * t + 5 * w) * den == 10 * (t * den) + 5 * (w * den);
    assert (f + 1) * den == f * den + den;
  }

  /** The inexact branch of Quotient: the nudged quotient g is never a
      multiple of 5, so its rounding to a multiple of ten or more is never a
      tie and is the rounding of num / den itself. */
  lemma {:induction false} NudgedRounding(num: nat, den: nat, f: nat, rem: nat, g: nat, c: nat, w: nat)
    requires den > 0 && w > 0 && num == f * den + rem && 0 < rem < den
    requires (g == f || g == f + 1) && g % 5 != 0
    requires RoundsHalfEvenTo(g, c, 10 * w)
    ensures RoundsHalfEvenTo(num, c, (10 * w) * den)
  {
    NoTie(g, c, w);
    ScaleBounds(c * w, w, f, den);
    Regroup(c, w, den);
  }

  /** The unit of the quotient, regrouped. */
  lemma {:induction false} Regroup(c: nat, w: nat, den: nat)
    ensures c * ((10 * w) * den) == 10 * ((c * w) * den)
    ensures (10 * w) * den == 10 * (w * den)
  {
  }

  /** The shift Decimal gives the dividend so that the integer quotient has
      at least Prec + 1 digits. */
  function DivShift(a: Dec, b: Dec): int {
    Digits(b.coef) - Digits(a.coef) + Prec + 1
  }

  /** The integer dividend after the shift: a.coef * 10^s for a
      non-negative shift s, a.coef itself otherwise. */
  function DivNum(a: Dec, b: Dec): nat {
    var s := DivShift(a, b);
    if s >= 0 then a.coef * Pow10(s) else a.coef
  }

  /** The integer divisor after the shift: b.coef, times 10^-s for a
      negative shift s. */
  function DivDen(a: Dec, b: Dec): nat {
    var s := DivShift(a, b);
    if s >= 0 then b.coef else b.coef * Pow10(-s)
  }

  /** r is a / b rounded half-even to r's exponent: a / b is DivNum / DivDen
      at exponent a.exp - b.exp - DivShift(a, b), and r.coef * 10^r.exp lies
      within half a unit of the last place of that quotient. */
  predicate RoundedQuotient(a: Dec, b: Dec, r: Dec) {
    var e := a.exp - b.exp - DivShift(a, b);
    r.exp >= e && RoundsHalfEvenTo(DivNum(a, b), r.coef, Pow10(r.exp - e) * DivDen(a, b))
  }

  /** r is a / b with nothing lost: r.coef units of the quotient's last
      place, times the shifted divisor, make up the shifted dividend. */
  predicate QuotientIsExact(a: Dec, b: Dec, r: Dec) {
    var e := a.exp - b.exp - DivShift(a, b);
    r.exp >= e && DivNum(a, b) == r.coef * (Pow10(r.exp - e) * DivDen(a, b))
  }

  /** a / b for a non-zero b, as Decimal divides: the dividend is shifted
      so that the integer quotient has at least Prec + 1 digits, and the
      quotient is rounded half-even to Prec digits. Only an exact quotient
      may come out shorter. */
  function Div(a: Dec, b: Dec): (r: Dec)
    requires b.coef != 0
    ensures Digits(r.coef) <= Prec
    ensures RoundedQuotient(a, b, r)
    ensures Digits(r.coef) == Prec || QuotientIsExact(a, b, r)
  {
    DivOperands(a, b);
    var e := a.exp - b.exp - DivShift(a, b);
    var r := Quotient(DivNum(a, b), DivDen(a, b), e, a.exp - b.exp);
    QuotientOfOperands(a, b, r, e);
    r
  }

  /** Quotient's contract on the shifted operands is Div's. */
  lemma {:induction false} QuotientOfOperands(a: Dec, b: Dec, r: Dec, e: int)
    requires e == a.exp - b.exp - DivShift(a, b) && r.exp >= e
    requires RoundsHalfEvenTo(DivNum(a, b), r.coef, Pow10(r.exp - e) * DivDen(a, b))
    requires Digits(r.coef) == Prec || DivNum(a, b) == r.coef * (Pow10(r.exp - e) * DivDen(a, b))
    ensures RoundedQuotient(a, b, r)
    ensures Digits(r.coef) == Prec || QuotientIsExact(a, b, r)
  {
  }

  /** After the shift the divisor is positive, and the dividend is zero or
      at least 10^Prec divisors. */
  lemma {:induction false} DivOperands(a: Dec, b: Dec)
    requires b.coef != 0
    ensures DivDen(a, b) > 0
    ensures DivNum(a, b) == 0 || DivNum(a, b) >= CoefLimit * DivDen(a, b)
  {
    var s := DivShift(a, b);
    if s >= 0 {
      DividendShifted(a, b, s);
    } else {
      DivisorShifted(a, b, -s);
    }
  }

  lemma {:induction false} DividendShifted(a: Dec, b: Dec, s: nat)
    requires b.coef != 0 && s == DivShift(a, b)
    ensures DivDen(a, b) > 0
    ensures DivNum(a, b) == 0 || DivNum(a, b) >= CoefLimit * DivDen(a, b)
  {
    assert DivNum(a, b) == a.coef * Pow10(s) && DivDen(a, b) == b.coef;
    if a.coef != 0 {
      ShiftedDividend(a.coef, b.coef, s, Prec);
      CoefLimitIsPower();
    }
  }

  lemma {:induction false} DivisorShifted(a: Dec, b: Dec, m: nat)
    requires b.coef != 0 && m >= 1 && m == -DivShift(a, b)
    ensures DivDen(a, b) > 0
    ensures DivNum(a, b) == 0 || DivNum(a, b) >= CoefLimit * DivDen(a, b)
  {
    assert DivNum(a, b) == a.coef && DivDen(a, b) == b.coef * Pow10(m);
    if a.coef != 0 {
      ShiftedDivisor(a.coef, b.coef, m, Prec);
      CoefLimitIsPower();
    }
  }

  /** 10^i * 10^j == 10^k * 10^l when i + j == k + l. */
  lemma {:induction false} SamePower(i: nat, j: nat, k: nat, l: nat)
    requires i + j == k + l
    ensures Pow10(i) * Pow10(j) == Pow10(k) * Pow10(l)
  {
    var n := i + j;
    PowerSplit(n, i, j);
    PowerSplit(n, k, l);
  }

  /** 10^n == 10^i * 10^j for n == i + j. */
  lemma {:induction false} PowerSplit(n: nat, i: nat, j: nat)
    requires n == i + j
    ensures Pow10(n) == Pow10(i) * Pow10(j)
  {
    Pow10Add(i, j);
  }

  /** 10^i * 10^j * 10^k == 10^n when i + j + k == n. */
  lemma {:induction false} ThreePowers(i: nat, j: nat, k: nat, n: nat)
    requires i + j + k == n
    ensures (Pow10(i) * Pow10(j)) * Pow10(k) == Pow10(n)
  {
    var ij := i + j;
    PowerSplit(ij, i, j);
    PowerSplit(n, ij, k);
  }

  /** A dividend shifted left by Digits(b) - Digits(a) + p + 1 places
      is at least 10^p times b. */
  lemma {:induction false} ShiftedDividend(a: nat, b: nat, s: nat, p: nat)
    requires a >= 1 && s == Digits(b) - Digits(a) + p + 1
    ensures a * Pow10(s) >= Pow10(p) * b
  {
    var i, l := Digits(a) - 1, Digits(b);
    assert Pow10(i) <= a by { DigitsRange(a); }
    assert b < Pow10(l) by { DigitsRange(b); }
    ScaledAbove(a, b, i, s, p, l);
  }

  /** a >= 10^i and b < 10^l with i + s == p + l give a * 10^s >= 10^p * b. */
  lemma {:induction false} ScaledAbove(a: nat, b: nat, i: nat, s: nat, p: nat, l: nat)
    requires Pow10(i) <= a && b < Pow10(l) && i + s == p + l
    ensures a * Pow10(s) >= Pow10(p) * b
  {
    var lo, sh, hi, pp := Pow10(i), Pow10(s), Pow10(l), Pow10(p);
    MulMonotone(lo, a, sh);
    SamePower(i, s, p, l);
    MulMonotone(b, hi, pp);
    assert b * pp == pp * b && hi * pp == pp * hi;
  }

  /** A divisor shifted left by m = Digits(a) - Digits(b) - p - 1 places
      is at most a / 10^p. */
  lemma {:induction false} ShiftedDivisor(a: nat, b: nat, m: nat, p: nat)
    requires a >= 1 && m == Digits(a) - Digits(b) - p - 1
    ensures a >= Pow10(p) * (b * Pow10(m))
  {
    var i, l := Digits(a) - 1, Digits(b);
    assert Pow10(i) <= a by { DigitsRange(a); }
    assert b < Pow10(l) by { DigitsRange(b); }
    ScaledBelow(a, b, i, m, p, l);
  }

  /** a >= 10^i and b < 10^l with l + m + p == i give a >= 10^p * (b * 10^m). */
  lemma {:induction false} ScaledBelow(a: nat, b: nat, i: nat, m: nat, p: nat, l: nat)
    requires Pow10(i) <= a && b < Pow10(l) && l + m + p == i
    ensures a >= Pow10(p) * (b * Pow10(m))
  {
    ThreePowers(l, m, p, i);
    ProductBelowBound(b, Pow10(l), Pow10(m), Pow10(p));
  }

  /** b <= hi gives p * (b * s) <= (hi * s) * p. */
  lemma {:induction false} ProductBelowBound(b: nat, hi: nat, s: nat, p: nat)
    requires b <= hi
    ensures p * (b * s) <= (hi * s) * p
  {
    MulMonotone(b, hi, s);
    MulMonotone(b * s, hi * s, p);
  }

  /** The powers of ten the Wine example below works with. */
  lemma {:induction false} Pow10Values()
    ensures Pow10(1) == 10
    ensures Pow10(3) == 1000
    ensures Pow10(4) == 10000
    ensures Pow10(26) == 100000000000000000000000000
    ensures Pow10(27) == 1000000000000000000000000000
    ensures Pow10(28) == 10000000000000000000000000000
    ensures Pow10(29) == 100000000000000000000000000000
    ensures Pow10(30) == 1000000000000000000000000000000
    ensures Pow10(31) == 10000000000000000000000000000000
  {
    assert Pow10(1) == 10;
    assert Pow10(2) == 100;
    assert Pow10(3) == 1000;
    assert Pow10(4) == 10000;
    assert Pow10(5) == 100000;
    assert Pow10(6) == 1000000;
    assert Pow10(7) == 10000000;
    assert Pow10(8) == 100000000;
    assert Pow10(9) == 1000000000;
    assert Pow10(10) == 10000000000;
    assert Pow10(11) == 100000000000;
    assert Pow10(12) == 1000000000000;
    assert Pow10(13) == 10000000000000;
    assert Pow10(14) == 100000000000000;
    assert Pow10(15) == 1000000000000000;
    assert Pow10(16) == 10000000000000000;
    assert Pow10(17) == 100000000000000000;
    assert Pow10(18) == 1000000000000000000;
    assert Pow10(19) == 10000000000000000000;
    assert Pow10(20) == 100000000000000000000;
    assert Pow10(21) == 1000000000000000000000;
    assert Pow10(22) == 10000000000000000000000;
    assert Pow10(23) == 100000000000000000000000;
    assert Pow10(24) == 1000000000000000000000000;
    assert Pow10(25) == 10000000000000000000000000;
    assert Pow10(26) == 100000000000000000000000000;
    assert Pow10(27) == 1000000000000000000000000000;
    assert Pow10(28) == 10000000000000000000000000000;
    assert Pow10(29) == 100000000000000000000000000000;
    assert Pow10(30) == 1000000000000000000000000000000;
    assert Pow10(31) == 10000000000000000000000000000000;
  }

  /** Real division cancels a common positive factor. */
  lemma {:induction false} CancelFactor(c: nat, p: nat, q: nat)
    requires p > 0 && q > 0
    ensures (c * p) as real / (p * q) as real == c as real / q as real
  {
    var cp, pq := (c * p) as real, (p * q) as real;
    assert cp == c as real * p as real;
    assert pq == p as real * q as real;
  }

  /** Writing a coefficient k places further left at an exponent k lower
      does not change the value. */
  lemma {:induction false} ValueShift(c: nat, e: int, k: nat)
    ensures Value(Dec(c * Pow10(k), e)) == Value(Dec(c, e + k))
  {
    if e >= 0 {
      ShiftPositive(c, e, k);
    } else if e + k <= 0 {
      ShiftNegative(c, e, k);
    } else {
      ShiftAcross(c, e, k);
    }
  }

  lemma {:induction false} ShiftPositive(c: nat, e: nat, k: nat)
    ensures Value(Dec(c * Pow10(k), e)) == Value(Dec(c, e + k))
  {
    var a, b := Pow10(k), Pow10(e);
    PowerSplit(e + k, k, e);
    Assoc(c, a, b);
    assert Value(Dec(c * a, e)) == ((c * a) * b) as real;
  }

  /** Both exponents at or below zero. */
  lemma {:induction false} ShiftNegative(c: nat, e: int, k: nat)
    requires e + k <= 0
    ensures Value(Dec(c * Pow10(k), e)) == Value(Dec(c, e + k))
  {
    var m: nat := -e - k;
    PowerSplit(m + k, k, m);
    CancelFactor(c, Pow10(k), Pow10(m));
  }

  /** The exponent goes from below zero to above it. */
  lemma {:induction false} ShiftAcross(c: nat, e: int, k: nat)
    requires e < 0 < e + k
    ensures Value(Dec(c * Pow10(k), e)) == Value(Dec(c, e + k))
  {
    var n: nat, j: nat := -e, e + k;
    PowerSplit(k, j, n);
    Assoc(c, Pow10(j), Pow10(n));
    CancelExact(c * Pow10(j), Pow10(n));
  }

  lemma {:induction false} Assoc(c: nat, a: nat, b: nat)
    ensures (c * a) * b == c * (a * b)
  {
  }

  lemma {:induction false} CancelExact(a: nat, p: nat)
    requires p > 0
    ensures (a * p) as real / p as real == a as real
  {
    assert (a * p) as real == a as real * p as real;
  }
  /** At a fixed exponent the value is additive in the coefficient. */
  lemma {:induction false} ValueAdd(x: nat, y: nat, e: int)
    ensures Value(Dec(x + y, e)) == Value(Dec(x, e)) + Value(Dec(y, e))
  {
    if e >= 0 {
      assert (x + y) * Pow10(e) == x * Pow10(e) + y * Pow10(e);
    } else {
      var q := Pow10(-e) as real;
      assert (x + y) as real / q == x as real / q + y as real / q;
    }
  }

  /** At a fixed exponent the value grows with the coefficient. */
  lemma {:induction false} ValueMonotone(x: nat, y: nat, e: int)
    requires x <= y
    ensures Value(Dec(x, e)) <= Value(Dec(y, e))
  {
    ValueAdd(x, y - x, e);
  }

  /** The exact sum of two Decimals has the sum of their values. */
  lemma {:induction false} ExactSumValue(a: Dec, b: Dec)
    ensures Value(ExactSum(a, b)) == Value(a) + Value(b)
  {
    var e := ExactSum(a, b).exp;
    ValueAdd(a.coef * Pow10(a.exp - e), b.coef * Pow10(b.exp - e), e);
    ValueShift(a.coef, e, a.exp - e);
    ValueShift(b.coef, e, b.exp - e);
  }

  /** Rounding up to exponent -1 is Money.RoundUpTenth on the values. */
  lemma {:induction false} RoundedUpIsRoundUpTenth(d: Dec, t: Dec)
    requires t.exp == -1 && RoundedUp(d, t)
    ensures Value(t) == Money.RoundUpTenth(Value(d))
  {
    assert Value(t) == t.coef as real / 10.0 by {
      assert Pow10(1) == 10;
    }
    Money.TenthsAreTenths(t.coef);
    if d.exp >= -1 {
      ValueShift(d.coef, -1, d.exp + 1);
      Money.RoundUpTenthKeepsTenths(Value(t));
    } else {
      var k: nat := -1 - d.exp;
      var u := Pow10(k);
      ValueShift(t.coef, d.exp, k);
      ValueMonotone(d.coef, t.coef * u, d.exp);
      ValueAdd(d.coef, u, d.exp);
      ValueShift(1, d.exp, k);
      StrictValueMonotone(t.coef * u, d.coef + u, d.exp);
      assert Value(Dec(1, -1)) == 0.1 by {
        assert Pow10(1) == 10;
      }
      assert 0.0 <= Value(d);
      Money.RoundUpTenthUnique(Value(d), Value(t));
    }
  }

  /** At a fixed exponent a larger coefficient has a larger value. */
  lemma {:induction false} StrictValueMonotone(x: nat, y: nat, e: int)
    requires x < y
    ensures Value(Dec(x, e)) < Value(Dec(y, e))
  {
    ValueAdd(x, y - x, e);
    assert Value(Dec(y - x, e)) > 0.0;
  }

  /** One unit in the last place of a Decimal with exponent e: 10^e. */
  function Ulp(e: int): (u: real)
    ensures u > 0.0
  {
    if e >= 0 then Pow10(e) as real else 1.0 / Pow10(-e) as real
  }

  /** The Decimal 1E+e is worth one unit of exponent e. */
  lemma {:induction false} UlpIsValue(e: int)
    ensures Value(Dec(1, e)) == Ulp(e)
  {
    assert 1 * Pow10(if e >= 0 then e else 0) == Pow10(if e >= 0 then e else 0);
  }

  /** Rounding up moves the value up by less than one unit of r's last place. */
  lemma {:induction false} RoundedUpValue(d: Dec, r: Dec)
    requires RoundedUp(d, r)
    ensures Value(d) <= Value(r) < Value(d) + Ulp(r.exp)
  {
    if r.exp <= d.exp {
      ValueShift(d.coef, r.exp, d.exp - r.exp);
    } else {
      var k: nat := r.exp - d.exp;
      var u := Pow10(k);
      ValueShift(r.coef, d.exp, k);
      ValueShift(1, d.exp, k);
      UlpIsValue(r.exp);
      ValueMonotone(d.coef, r.coef * u, d.exp);
      StrictValueMonotone(r.coef * u, d.coef + u, d.exp);
      ValueAdd(d.coef, u, d.exp);
    }
  }

  /** Rounding half-even moves the value by at most half a unit of r's last place. */
  lemma {:induction false} RoundedHalfEvenValue(d: Dec, r: Dec)
    requires RoundedHalfEven(d, r)
    ensures Value(d) - Ulp(r.exp) / 2.0 <= Value(r) <= Value(d) + Ulp(r.exp) / 2.0
  {
    if r.exp <= d.exp {
      ValueShift(d.coef, r.exp, d.exp - r.exp);
    } else {
      var k: nat := r.exp - d.exp;
      RoundedHalfEvenCoarser(d, r, k, Pow10(k));
    }
  }

  /** The case of RoundedHalfEvenValue where digits are lost. */
  lemma {:induction false} RoundedHalfEvenCoarser(d: Dec, r: Dec, k: nat, u: nat)
    requires r.exp == d.exp + k && u == Pow10(k) && RoundsHalfEvenTo(d.coef, r.coef, u)
    ensures Value(d) - Ulp(r.exp) / 2.0 <= Value(r) <= Value(d) + Ulp(r.exp) / 2.0
  {
    var cu := r.coef * u;
    ValueShift(r.coef, d.exp, k);
    ValueShift(1, d.exp, k);
    UlpIsValue(r.exp);
    HalfUnitBelow(d.coef, cu, u, d.exp);
    HalfUnitAbove(d.coef, cu, u, d.exp);
  }

  /** 2c <= 2x + u in coefficients: c is at most half of u above x in value. */
  lemma {:induction false} HalfUnitAbove(x: nat, c: nat, u: nat, e: int)
    requires 2 * c <= 2 * x + u
    ensures Value(Dec(c, e)) <= Value(Dec(x, e)) + Value(Dec(u, e)) / 2.0
  {
    ValueAdd(c, c, e);
    ValueAdd(x, x, e);
    ValueAdd(2 * x, u, e);
    ValueMonotone(2 * c, 2 * x + u, e);
  }

  /** 2x <= 2c + u in coefficients: c is at most half of u below x in value. */
  lemma {:induction false} HalfUnitBelow(x: nat, c: nat, u: nat, e: int)
    requires 2 * x <= 2 * c + u
    ensures Value(Dec(x, e)) - Value(Dec(u, e)) / 2.0 <= Value(Dec(c, e))
  {
    HalfUnitAbove(c, x, u, e);
  }

  /** The real of a product is the product of the reals. */
  lemma {:induction false} CastProduct(a: nat, b: nat)
    ensures (a * b) as real == a as real * b as real
  {
  }

  /** c == a * b carries over to the reals. */
  lemma {:induction false} CastProductEq(c: nat, a: nat, b: nat)
    requires c == a * b
    ensures c as real == a as real * b as real
  {
  }

  /** The exact product of two Decimals has the product of their values. */
  lemma {:induction false} ExactProductValue(a: Dec, b: Dec)
    ensures Value(Dec(a.coef * b.coef, a.exp + b.exp)) == Value(a) * Value(b)
  {
    if a.exp >= 0 && b.exp >= 0 {
      ProductAbove(a, b);
    } else if a.exp < 0 && b.exp < 0 {
      ProductBelow(a, b);
    } else if a.exp >= 0 {
      ProductMixed(a, b);
    } else {
      ProductMixed(b, a);
      assert b.coef * a.coef == a.coef * b.coef && b.exp + a.exp == a.exp + b.exp;
    }
  }

  /** Both exponents at or above zero: an integer identity. */
  lemma {:induction false} ProductAbove(a: Dec, b: Dec)
    requires a.exp >= 0 && b.exp >= 0
    ensures Value(Dec(a.coef * b.coef, a.exp + b.exp)) == Value(a) * Value(b)
  {
    var m: nat, n: nat := a.exp, b.exp;
    var p, q, pq := Pow10(m), Pow10(n), Pow10(m + n);
    var i, j, k := a.coef * p, b.coef * q, (a.coef * b.coef) * pq;
    assert k == i * j by {
      PowerSplit(m + n, m, n);
      WholeProduct(a.coef, b.coef, p, q, pq);
    }
    assert Value(a) == i as real;
    assert Value(b) == j as real;
    assert Value(Dec(a.coef * b.coef, a.exp + b.exp)) == k as real;
    CastProductEq(k, i, j);
  }

  lemma {:induction false} WholeProduct(x: nat, y: nat, p: nat, q: nat, pq: nat)
    requires pq == p * q
    ensures (x * y) * pq == (x * p) * (y * q)
  {
  }

  /** Both exponents below zero: a product of two fractions. */
  lemma {:induction false} ProductBelow(a: Dec, b: Dec)
    requires a.exp < 0 && b.exp < 0
    ensures Value(Dec(a.coef * b.coef, a.exp + b.exp)) == Value(a) * Value(b)
  {
    var m: nat, n: nat := -a.exp, -b.exp;
    var p, q, pq := Pow10(m), Pow10(n), Pow10(m + n);
    PowerSplit(m + n, m, n);
    FractionsProduct(a.coef, b.coef, p, q, pq);
  }

  lemma {:induction false} FractionsProduct(x: nat, y: nat, p: nat, q: nat, pq: nat)
    requires p > 0 && q > 0 && pq == p * q
    ensures (x * y) as real / pq as real == (x as real / p as real) * (y as real / q as real)
  {
    var xr, yr, pr, qr := x as real, y as real, p as real, q as real;
    CastProductEq(pq, p, q);
    CastProduct(x, y);
    FractionProduct(xr, pr, yr, qr);
    assert (x * y) as real / pq as real == (xr * yr) / (pr * qr);
  }

  lemma {:induction false} FractionProduct(x: real, p: real, y: real, q: real)
    requires p > 0.0 && q > 0.0
    ensures (x * y) / (p * q) == (x / p) * (y / q)
  {
  }

  /** Exponents of opposite signs. */
  lemma {:induction false} ProductMixed(a: Dec, b: Dec)
    requires a.exp >= 0 > b.exp
    ensures Value(Dec(a.coef * b.coef, a.exp + b.exp)) == Value(a) * Value(b)
  {
    if a.exp + b.exp >= 0 {
      ProductMixedAbove(a, b);
    } else {
      ProductMixedBelow(a, b);
    }
  }

  lemma {:induction false} ProductMixedAbove(a: Dec, b: Dec)
    requires a.exp >= 0 > b.exp && a.exp + b.exp >= 0
    ensures Value(Dec(a.coef * b.coef, a.exp + b.exp)) == Value(a) * Value(b)
  {
    var x, y := a.coef, b.coef;
    var m: nat, n: nat, k: nat := a.exp, -b.exp, a.exp + b.exp;
    var p, q, pk := Pow10(m), Pow10(n), Pow10(k);
    assert Value(a) == (x * p) as real;
    assert Value(b) == y as real / q as real;
    assert Value(Dec(x * y, a.exp + b.exp)) == ((x * y) * pk) as real;
    PowerSplit(m, k, n);
    IntRearrange(x, y, pk, q);
    MixedAbove((x * y) * pk, q, (x * p) as real, y as real);
    CastProduct(x * p, y);
  }

  lemma {:induction false} ProductMixedBelow(a: Dec, b: Dec)
    requires a.exp >= 0 > b.exp && a.exp + b.exp < 0
    ensures Value(Dec(a.coef * b.coef, a.exp + b.exp)) == Value(a) * Value(b)
  {
    var x, y := a.coef, b.coef;
    var m: nat, n: nat, k: nat := a.exp, -b.exp, -(a.exp + b.exp);
    var p, q, pk := Pow10(m), Pow10(n), Pow10(k);
    assert Value(a) == (x * p) as real;
    assert Value(b) == y as real / q as real;
    assert Value(Dec(x * y, a.exp + b.exp)) == (x * y) as real / pk as real;
    PowerSplit(n, m, k);
    MixedBelowAlgebra(x, y, p, pk, q);
  }

  lemma {:induction false} MixedBelowAlgebra(x: nat, y: nat, p: nat, r: nat, q: nat)
    requires p > 0 && r > 0 && q == p * r
    ensures (x * y) as real / r as real == (x * p) as real * (y as real / q as real)
  {
    CastProductEq(q, p, r);
    CastProduct(x, p);
    CastProduct(x, y);
    MixedBelow(x as real, y as real, p as real, r as real, q as real);
  }

  lemma {:induction false} IntRearrange(x: nat, y: nat, a: nat, b: nat)
    ensures ((x * y) * a) * b == (x * (a * b)) * y
  {
  }

  lemma {:induction false} MixedAbove(z: nat, q: nat, xp: real, y: real)
    requires q > 0 && (z * q) as real == xp * y
    ensures z as real == xp * (y / q as real)
  {
    CastProduct(z, q);
  }

  lemma {:induction false} MixedBelow(x: real, y: real, p: real, r: real, q: real)
    requires p > 0.0 && r > 0.0 && q == p * r
    ensures (x * y) / r == (x * p) * (y / q)
  {
  }

  /** The rounding modes the source uses. */
  datatype Rounding = RoundUp | RoundHalfEven

  /** _rescale: the value at exponent e, rounded in the given mode when
      digits are lost (ROUND_UP: away from zero). */
  function Rescale(d: Dec, e: int, mode: Rounding): (r: Dec)
    ensures r.exp == e
    ensures mode == RoundUp ==> RoundedUp(d, r)
    ensures mode == RoundHalfEven ==> RoundedHalfEven(d, r)
  {
    if d.exp >= e then Dec(d.coef * Pow10(d.exp - e), e)
    else
      var unit := Pow10(e - d.exp);
      match mode
      case RoundUp => Dec(CeilDiv(d.coef, unit), e)
      case RoundHalfEven => Dec(HalfEvenDiv(d.coef, unit), e)
  }

  /** quantize(10^e, rounding): None where Decimal raises InvalidOperation
      because the result would need more than Prec digits; otherwise the
      value rounded in the given mode to exponent exactly e, in at most Prec
      digits. */
  function Quantize(d: Dec, e: int, mode: Rounding): (r: Option<Dec>)
    ensures r.Some? ==> r.value.exp == e && Digits(r.value.coef) <= Prec
    ensures r.Some? && mode == RoundUp ==> RoundedUp(d, r.value)
    ensures r.Some? && mode == RoundHalfEven ==> RoundedHalfEven(d, r.value)
    ensures d.coef == 0 ==> r == Some(Dec(0, e))
    ensures r.None? <==> d.coef != 0 && Digits(Rescale(d, e, mode).coef) > Prec
  {
    if d.coef == 0 then Some(Dec(0, e))
    else if d.exp + Digits(d.coef) - 1 - e + 1 > Prec then
      RescaleTooLong(d, e, mode);
      None
    else
      var r := Rescale(d, e, mode);
      if Digits(r.coef) > Prec then None else Some(r)
  }

  /** When the adjusted exponent of d lies more than Prec places above e,
      d at exponent e needs more than Prec digits, whichever way it is
      rounded: quantize's early exit raises only where the result would. */
  lemma {:induction false} RescaleTooLong(d: Dec, e: int, mode: Rounding)
    requires d.coef != 0 && d.exp + Digits(d.coef) - e > Prec
    ensures Digits(Rescale(d, e, mode).coef) > Prec
  {
    var n := Digits(d.coef);
    DigitsRange(d.coef);
    var r := Rescale(d, e, mode);
    if d.exp >= e {
      var j: nat := d.exp - e;
      Pow10Add(n - 1, j);
      MulMonotone(Pow10(n - 1), d.coef, Pow10(j));
      MoreThanPrec(r.coef, n - 1 + j);
    } else {
      var k: nat := e - d.exp;
      var m: nat := n - 1 - k;
      Pow10Add(k, m);
      RescaledAtLeast(d.coef, r.coef, Pow10(k), Pow10(m), mode == RoundUp);
      MoreThanPrec(r.coef, m);
    }
  }

  /** A rounding of x, up or half-even, to a multiple of unit keeps at
      least lo units when x is at least unit * lo. */
  lemma {:induction false} RescaledAtLeast(x: nat, c: nat, unit: nat, lo: nat, up: bool)
    requires unit > 0 && unit * lo <= x
    requires up ==> RoundsUpTo(x, c, unit)
    requires !up ==> RoundsHalfEvenTo(x, c, unit)
    ensures lo <= c
  {
    if up {
      ScaleCompare(lo, c, unit);
    } else {
      RoundingBelow(x, c, unit, lo);
    }
  }

  /** A number of at least 10^m, for m >= Prec, has more than Prec digits. */
  lemma {:induction false} MoreThanPrec(c: nat, m: nat)
    requires m >= Prec && Pow10(m) <= c
    ensures Digits(c) > Prec
  {
    DigitsBound(c, m);
  }

  /** The two quantize steps of Wine.mod_stockline: up to 0.1, then to
      0.10. The result is the value rounded up to a whole number of tenths,
      written with two decimals; None where a quantize would raise. */
  function TenthsAtTwoDecimals(scaled: Dec): (r: Option<Dec>)
    ensures r.Some? ==> r.value.exp == -2 && r.value.coef % 10 == 0 && Digits(r.value.coef) <= Prec
    ensures r.Some? ==> RoundedUp(scaled, Dec(r.value.coef / 10, -1))
    ensures r.Some? <==> scaled.coef == 0 || Digits(Rescale(scaled, -1, RoundUp).coef) < Prec
  {
    match Quantize(scaled, -1, RoundUp)
    case None => None
    case Some(t) =>
      var h := Quantize(t, -2, RoundHalfEven);
      assert h.Some? ==> h.value.coef == t.coef * 10 by {
        assert Pow10(1) == 10;
      }
      SecondQuantize(t);
      h
  }

  /** Re-quantizing a one-decimal value to two decimals raises exactly
      when its coefficient already has Prec digits. */
  lemma {:induction false} SecondQuantize(t: Dec)
    requires t.exp == -1
    ensures Quantize(t, -2, RoundHalfEven).Some? <==> Digits(t.coef) < Prec
  {
    assert Rescale(t, -2, RoundHalfEven).coef == t.coef * 10 by {
      assert Pow10(1) == 10;
    }
    if t.coef != 0 {
      DigitsTimesTen(t.coef);
    }
  }

  /** Appending a zero digit to a positive number adds one digit. */
  lemma {:induction false} DigitsTimesTen(n: nat)
    requires n >= 1
    ensures Digits(n * 10) == Digits(n) + 1
  {
    assert (n * 10) / 10 == n;
  }

  /** The rounded part of Wine.mod_stockline's price as the source computes
      it: size / 750.0 times the price, each step rounded to 28 digits,
      then rounded up to a whole number of tenths written with two
      decimals. */
  function WineRoundedAsWritten(size: Dec, price: Dec): (r: Option<Dec>)
    ensures r.Some? ==> r.value.exp == -2 && r.value.coef % 10 == 0 && Digits(r.value.coef) <= Prec
    ensures size.coef == 0 ==> r == Some(Dec(0, -2))
    ensures r.Some? ==> RoundedUp(Mul(Div(size, Dec(7500, -1)), price), Dec(r.value.coef / 10, -1))
    ensures var m := Mul(Div(size, Dec(7500, -1)), price);
      r.Some? <==> m.coef == 0 || Digits(Rescale(m, -1, RoundUp).coef) < Prec
  {
    ZeroSizeRoundsToZero(size, price);
    TenthsAtTwoDecimals(Mul(Div(size, Dec(7500, -1)), price))
  }

  /** A serving of size zero costs nothing: the quotient, the product and
      both quantize steps are all zero. */
  lemma {:induction false} ZeroSizeRoundsToZero(size: Dec, price: Dec)
    ensures size.coef == 0 ==> TenthsAtTwoDecimals(Mul(Div(size, Dec(7500, -1)), price)) == Some(Dec(0, -2))
  {
    if size.coef == 0 {
      var q := Div(size, Dec(7500, -1));
      ZeroQuotient(size, Dec(7500, -1));
      ZeroProduct(q, price);
      var m := Mul(q, price);
      assert m.coef == 0;
      assert Quantize(m, -1, RoundUp) == Some(Dec(0, -1));
      assert Quantize(Dec(0, -1), -2, RoundHalfEven) == Some(Dec(0, -2));
    }
  }

  /** Half-even rounding of zero gives zero. */
  lemma {:induction false} ZeroRounding(c: nat, unit: nat)
    requires unit > 0 && RoundsHalfEvenTo(0, c, unit)
    ensures c == 0
  {
    if c >= 1 {
      MulMonotone(1, c, unit);
    }
  }

  /** Zero divided by anything non-zero is zero. */
  lemma {:induction false} ZeroQuotient(a: Dec, b: Dec)
    requires a.coef == 0 && b.coef != 0
    ensures Div(a, b).coef == 0
  {
    var r := Div(a, b);
    var e := a.exp - b.exp - DivShift(a, b);
    var k: nat := r.exp - e;
    var unit := Pow10(k) * DivDen(a, b);
    assert unit > 0 by {
      DivOperands(a, b);
      MulMonotone(1, Pow10(k), DivDen(a, b));
    }
    assert DivNum(a, b) == 0;
    ZeroRounding(r.coef, unit);
  }

  /** Zero times anything is zero, exactly: _fix leaves it alone. */
  lemma {:induction false} ZeroProduct(a: Dec, b: Dec)
    requires a.coef == 0
    ensures Mul(a, b).coef == 0
  {
    assert Digits(a.coef * b.coef) == 1;
  }

  /** Wine.mod_stockline's price as the source computes it: the rounded
      price plus the extra, the exact sum rounded to 28 digits. None exactly
      where the rounding raises. */
  function WinePriceAsWritten(size: Dec, price: Dec, extra: Dec): (r: Option<Dec>)
    ensures r.Some? <==> WineRoundedAsWritten(size, price).Some?
    ensures r.Some? ==> RoundedHalfEven(ExactSum(WineRoundedAsWritten(size, price).value, extra), r.value)
    ensures r.Some? && extra.coef == 0 && extra.exp >= -2 ==> r == WineRoundedAsWritten(size, price)
  {
    var rounded := WineRoundedAsWritten(size, price);
    if rounded.None? then None
    else
      assert extra.coef == 0 && extra.exp >= -2 ==> Add(rounded.value, extra) == rounded.value by {
        if extra.coef == 0 && extra.exp >= -2 {
          AddZero(rounded.value, extra);
        }
      }
      Some(Add(rounded.value, extra))
  }

  /** Adding a zero whose exponent is no smaller leaves a Decimal that is
      already rounded to Prec digits unchanged. */
  lemma {:induction false} AddZero(h: Dec, z: Dec)
    requires z.coef == 0 && z.exp >= h.exp && Digits(h.coef) <= Prec
    ensures Add(h, z) == h
  {
    assert ExactSum(h, z) == h by {
      assert Pow10(0) == 1;
      assert z.coef * Pow10(z.exp - h.exp) == 0;
    }
  }

  /** WineRoundedAsWritten step by step: once the quotient, the product and
      both quantize results are known, the rounded price is the last. */
  lemma {:induction false} WinePriceSteps(size: Dec, price: Dec, q: Dec, m: Dec, t: Dec, h: Dec)
    requires Div(size, Dec(7500, -1)) == q && Mul(q, price) == m
    requires Quantize(m, -1, RoundUp) == Some(t) && Quantize(t, -2, RoundHalfEven) == Some(h)
    ensures WineRoundedAsWritten(size, price) == Some(h)
  {
  }

  // The operations above, stated on the numbers the Decimals stand for.

  /** _fix moves the value by at most half a unit of the result's last
      place, and not at all when d already fits in Prec digits. */
  lemma {:induction false} FixValue(d: Dec)
    ensures Value(d) - Ulp(Fix(d).exp) / 2.0 <= Value(Fix(d)) <= Value(d) + Ulp(Fix(d).exp) / 2.0
    ensures Digits(d.coef) <= Prec ==> Value(Fix(d)) == Value(d)
    ensures Value(Fix(d)) - Value(d) == Ulp(Fix(d).exp) / 2.0 || Value(d) - Value(Fix(d)) == Ulp(Fix(d).exp) / 2.0 ==>
      Fix(d).coef % 2 == 0
  {
    RoundedHalfEvenValue(d, Fix(d));
    HalfEvenTieValue(d, Fix(d));
  }

  /** a * b is within half a unit of its last place of the exact product
      of the values, and equal to it when the product fits in Prec digits. */
  lemma {:induction false} MulValue(a: Dec, b: Dec)
    ensures var r := Mul(a, b);
      Value(a) * Value(b) - Ulp(r.exp) / 2.0 <= Value(r) <= Value(a) * Value(b) + Ulp(r.exp) / 2.0
    ensures Digits(a.coef * b.coef) <= Prec ==> Value(Mul(a, b)) == Value(a) * Value(b)
    ensures var r := Mul(a, b);
      Value(r) - Value(a) * Value(b) == Ulp(r.exp) / 2.0 || Value(a) * Value(b) - Value(r) == Ulp(r.exp) / 2.0 ==>
      r.coef % 2 == 0
  {
    ExactProductValue(a, b);
    RoundedHalfEvenValue(Dec(a.coef * b.coef, a.exp + b.exp), Mul(a, b));
    HalfEvenTieValue(Dec(a.coef * b.coef, a.exp + b.exp), Mul(a, b));
  }

  /** a + b is within half a unit of its last place of the exact sum of
      the values, and equal to it when the sum fits in Prec digits. */
  lemma {:induction false} AddValue(a: Dec, b: Dec)
    ensures var r := Add(a, b);
      Value(a) + Value(b) - Ulp(r.exp) / 2.0 <= Value(r) <= Value(a) + Value(b) + Ulp(r.exp) / 2.0
    ensures Digits(ExactSum(a, b).coef) <= Prec ==> Value(Add(a, b)) == Value(a) + Value(b)
    ensures var r := Add(a, b);
      Value(r) - (Value(a) + Value(b)) == Ulp(r.exp) / 2.0 || Value(a) + Value(b) - Value(r) == Ulp(r.exp) / 2.0 ==>
      r.coef % 2 == 0
  {
    ExactSumValue(a, b);
    RoundedHalfEvenValue(ExactSum(a, b), Add(a, b));
    HalfEvenTieValue(ExactSum(a, b), Add(a, b));
  }

  /** quantize(10^e) in values: ROUND_UP gives the least value at or above
      d in steps of 10^e, ROUND_HALF_EVEN a value within half a step of d. */
  lemma {:induction false} QuantizeValue(d: Dec, e: int, mode: Rounding)
    ensures var r := Quantize(d, e, mode);
      r.Some? && mode == RoundUp ==> Value(d) <= Value(r.value) < Value(d) + Ulp(e)
    ensures var r := Quantize(d, e, mode);
      r.Some? && mode == RoundHalfEven ==> Value(d) - Ulp(e) / 2.0 <= Value(r.value) <= Value(d) + Ulp(e) / 2.0
  {
    var r := Quantize(d, e, mode);
    if r.Some? {
      if mode == RoundUp {
        RoundedUpValue(d, r.value);
      } else {
        RoundedHalfEvenValue(d, r.value);
      }
    }
  }

  /** quantize(10^e, ROUND_HALF_EVEN) in values, at a tie: when d lies
      exactly half-way between two steps of 10^e, the result has an even
      coefficient. */
  lemma {:induction false} QuantizeTiesToEven(d: Dec, e: int)
    ensures var r := Quantize(d, e, RoundHalfEven);
      r.Some? && (Value(r.value) - Value(d) == Ulp(e) / 2.0 || Value(d) - Value(r.value) == Ulp(e) / 2.0) ==>
      r.value.coef % 2 == 0
  {
    var r := Quantize(d, e, RoundHalfEven);
    if r.Some? {
      HalfEvenTieValue(d, r.value);
    }
  }

  /** RoundedHalfEven in values: a result half a unit of its last place
      away from d has an even coefficient. */
  lemma {:induction false} HalfEvenTieValue(d: Dec, r: Dec)
    requires RoundedHalfEven(d, r)
    ensures Value(r) - Value(d) == Ulp(r.exp) / 2.0 || Value(d) - Value(r) == Ulp(r.exp) / 2.0 ==> r.coef % 2 == 0
  {
    if r.exp <= d.exp {
      ValueShift(d.coef, r.exp, d.exp - r.exp);
    } else {
      var k: nat := r.exp - d.exp;
      var u := Pow10(k);
      assert 0 <= r.coef * u by {
        MulMonotone(0, r.coef, u);
      }
      var cu: nat := r.coef * u;
      ValueShift(r.coef, d.exp, k);
      ValueShift(1, d.exp, k);
      UlpIsValue(r.exp);
      TieInCoefficients(d.coef, cu, u, d.exp);
    }
  }

  /** At one exponent, a value half of u above or below x comes from a
      coefficient exactly half of u above or below x. */
  lemma {:induction false} TieInCoefficients(x: nat, c: nat, u: nat, e: int)
    ensures Value(Dec(c, e)) - Value(Dec(x, e)) == Value(Dec(u, e)) / 2.0 ==> 2 * c == 2 * x + u
    ensures Value(Dec(x, e)) - Value(Dec(c, e)) == Value(Dec(u, e)) / 2.0 ==> 2 * x == 2 * c + u
  {
    ValueAdd(c, c, e);
    ValueAdd(x, x, e);
    ValueAdd(2 * x, u, e);
    ValueAdd(2 * c, u, e);
    ValueInjective(2 * c, 2 * x + u, e);
    ValueInjective(2 * x, 2 * c + u, e);
  }

  /** At one exponent, equal values have equal coefficients. */
  lemma {:induction false} ValueInjective(x: nat, y: nat, e: int)
    ensures Value(Dec(x, e)) == Value(Dec(y, e)) ==> x == y
  {
    if x < y {
      StrictValueMonotone(x, y, e);
    } else if y < x {
      StrictValueMonotone(y, x, e);
    }
  }

  /** The rounded part of the Wine price as written is Money.RoundUpTenth
      of the 28-digit product: the quantize steps are exact ROUND_UP to a
      tenth, and any error lies in the quotient and the product. */
  lemma {:induction false} WineRoundedValue(size: Dec, price: Dec)
    ensures var r := WineRoundedAsWritten(size, price);
      r.Some? ==> Value(r.value) == Money.RoundUpTenth(Value(Mul(Div(size, Dec(7500, -1)), price)))
  {
    var r := WineRoundedAsWritten(size, price);
    if r.Some? {
      var t := Dec(r.value.coef / 10, -1);
      RoundedUpIsRoundUpTenth(Mul(Div(size, Dec(7500, -1)), price), t);
      ValueShift(t.coef, -2, 1);
      assert t.coef * Pow10(1) == r.value.coef;
    }
  }

  /** The Wine price as written is the rounded price plus the extra, to
      within half a unit of its last place, and exactly when that sum fits
      in Prec digits. */
  lemma {:induction false} WinePriceValue(size: Dec, price: Dec, extra: Dec)
    ensures var r, h := WinePriceAsWritten(size, price, extra), WineRoundedAsWritten(size, price);
      r.Some? ==> Value(h.value) + Value(extra) - Ulp(r.value.exp) / 2.0 <= Value(r.value) <= Value(h.value) + Value(extra) + Ulp(r.value.exp) / 2.0
    ensures var r, h := WinePriceAsWritten(size, price, extra), WineRoundedAsWritten(size, price);
      r.Some? && Digits(ExactSum(h.value, extra).coef) <= Prec ==> Value(r.value) == Value(h.value) + Value(extra)
  {
    var h := WineRoundedAsWritten(size, price);
    if h.Some? {
      AddValue(h.value, extra);
    }
  }

  /** a / b is within half a unit of its last place of the quotient of the
      values. */
  lemma {:induction false} DivValue(a: Dec, b: Dec)
    requires b.coef != 0
    ensures Value(b) > 0.0
    ensures var r := Div(a, b);
      Value(a) / Value(b) - Ulp(r.exp) / 2.0 <= Value(r) <= Value(a) / Value(b) + Ulp(r.exp) / 2.0
  {
    var r := Div(a, b);
    RoundedQuotientValue(a, b, r);
    DivisionForm(a, b, r);
  }

  /** Div's contract in values: a result that keeps fewer than Prec
      digits is exact, its value times that of b is the value of a. */
  lemma {:induction false} ExactOrFullValue(a: Dec, b: Dec, r: Dec)
    requires b.coef != 0 && RoundedQuotient(a, b, r)
    requires Digits(r.coef) == Prec || QuotientIsExact(a, b, r)
    ensures Digits(r.coef) == Prec || Value(r) * Value(b) == Value(a)
  {
    if Digits(r.coef) != Prec {
      ExactQuotientValue(a, b, r);
    }
  }

  /** A quotient with nothing lost times the divisor is the dividend, in
      values. */
  lemma {:induction false} ExactQuotientValue(a: Dec, b: Dec, r: Dec)
    requires b.coef != 0 && RoundedQuotient(a, b, r) && QuotientIsExact(a, b, r)
    ensures Value(r) * Value(b) == Value(a)
  {
    ExactAtCommonExponent(a, b, r, Dec(1, r.exp));
  }

  /** ExactQuotientValue at the common exponent of DivAtCommonExponent. */
  lemma {:induction false} ExactAtCommonExponent(a: Dec, b: Dec, r: Dec, one: Dec)
    requires b.coef != 0 && RoundedQuotient(a, b, r) && QuotientIsExact(a, b, r)
    requires one.coef == 1 && one.exp == r.exp
    ensures Value(r) * Value(b) == Value(a)
  {
    var s := DivShift(a, b);
    var k: nat := r.exp - (a.exp - b.exp - s);
    var p, d := Pow10(k), DivDen(a, b);
    assert 0 <= p * d by {
      MulMonotone(0, p, d);
    }
    var pd: nat := p * d;
    assert 0 <= r.coef * pd by {
      MulMonotone(0, r.coef, pd);
    }
    var c: nat := r.coef * pd;
    var t := if s >= 0 then a.exp - s else a.exp;
    DivAtCommonExponent(a, b, r, one, k, pd, c, t);
    assert c == DivNum(a, b);
  }

  /** A rounded quotient, as Div's contract gives it, is within half a
      unit of its last place of the quotient of the values. */
  lemma {:induction false} RoundedQuotientValue(a: Dec, b: Dec, r: Dec)
    requires b.coef != 0 && RoundedQuotient(a, b, r)
    ensures Value(b) > 0.0
    ensures Value(r) * Value(b) <= Value(a) + (Ulp(r.exp) * Value(b)) / 2.0
    ensures Value(a) - (Ulp(r.exp) * Value(b)) / 2.0 <= Value(r) * Value(b)
  {
    PositiveValue(b);
    UlpIsValue(r.exp);
    ProductWithinHalfUnit(a, b, r, Dec(1, r.exp));
  }

  /** Bounds on r times b, divided through by the positive value of b. */
  lemma {:induction false} DivisionForm(a: Dec, b: Dec, r: Dec)
    requires Value(b) > 0.0
    requires Value(r) * Value(b) <= Value(a) + (Ulp(r.exp) * Value(b)) / 2.0
    requires Value(a) - (Ulp(r.exp) * Value(b)) / 2.0 <= Value(r) * Value(b)
    ensures Value(a) / Value(b) - Ulp(r.exp) / 2.0 <= Value(r) <= Value(a) / Value(b) + Ulp(r.exp) / 2.0
  {
    DivideBounds(Value(r), Value(b), Value(a), Ulp(r.exp));
  }

  /** A non-zero coefficient has a positive value. */
  lemma {:induction false} PositiveValue(b: Dec)
    requires b.coef != 0
    ensures Value(b) > 0.0
  {
    StrictValueMonotone(0, b.coef, b.exp);
  }

  /** RoundedQuotientValue multiplied through by the divisor's value, with
      one unit of r's last place given as the Decimal one. */
  lemma {:induction false} ProductWithinHalfUnit(a: Dec, b: Dec, r: Dec, one: Dec)
    requires b.coef != 0 && RoundedQuotient(a, b, r) && one.coef == 1 && one.exp == r.exp
    ensures Value(r) * Value(b) <= Value(a) + (Value(one) * Value(b)) / 2.0
    ensures Value(a) - (Value(one) * Value(b)) / 2.0 <= Value(r) * Value(b)
  {
    var s := DivShift(a, b);
    var k: nat := r.exp - (a.exp - b.exp - s);
    var p, d := Pow10(k), DivDen(a, b);
    assert 0 <= p * d by {
      MulMonotone(0, p, d);
    }
    var pd: nat := p * d;
    assert 0 <= r.coef * pd by {
      MulMonotone(0, r.coef, pd);
    }
    var c: nat := r.coef * pd;
    var t := if s >= 0 then a.exp - s else a.exp;
    DivAtCommonExponent(a, b, r, one, k, pd, c, t);
    HalfUnitApart(Value(r) * Value(b), Value(one) * Value(b), Value(a), DivNum(a, b), c, pd, t);
  }

  /** Values p and q of the coefficients c and u at exponent t, with c
      within half of u of x: p is within q / 2 of the value of x. */
  lemma {:induction false} HalfUnitApart(p: real, q: real, v: real, x: nat, c: nat, u: nat, t: int)
    requires p == Value(Dec(c, t)) && q == Value(Dec(u, t)) && v == Value(Dec(x, t))
    requires 2 * c <= 2 * x + u && 2 * x <= 2 * c + u
    ensures p <= v + q / 2.0 && v - q / 2.0 <= p
  {
    HalfUnitAbove(x, c, u, t);
    HalfUnitBelow(x, c, u, t);
  }

  /** Div's rounding, multiplied through by the divisor's value: the value
      of the result times that of b, one unit of the result's last place
      times that of b, and the value of a are the coefficients
      c == r.coef * pd, pd == DivDen * 10^k and DivNum at one exponent t,
      and c is DivNum rounded half-even to a multiple of pd. */
  lemma {:induction false} DivAtCommonExponent(a: Dec, b: Dec, r: Dec, one: Dec, k: nat, pd: nat, c: nat, t: int)
    requires b.coef != 0 && RoundedQuotient(a, b, r) && one.coef == 1 && one.exp == r.exp
    requires k == r.exp - (a.exp - b.exp - DivShift(a, b))
    requires pd == Pow10(k) * DivDen(a, b) && c == r.coef * pd
    requires t == (if DivShift(a, b) >= 0 then a.exp - DivShift(a, b) else a.exp)
    ensures Value(r) * Value(b) == Value(Dec(c, t)) && Value(one) * Value(b) == Value(Dec(pd, t))
    ensures Value(a) == Value(Dec(DivNum(a, b), t))
    ensures 2 * c <= 2 * DivNum(a, b) + pd && 2 * DivNum(a, b) <= 2 * c + pd
  {
    RoundedQuotientCoefficients(a, b, r, k, pd, c);
    if DivShift(a, b) >= 0 {
      CommonExponentDividend(a, b, r, one, k, pd, c, t);
    } else {
      CommonExponentDivisor(a, b, r, one, k, pd, c, t);
    }
  }

  /** RoundedQuotient on coefficients: c == r.coef * pd lies within half
      of pd of DivNum. */
  lemma {:induction false} RoundedQuotientCoefficients(a: Dec, b: Dec, r: Dec, k: nat, pd: nat, c: nat)
    requires RoundedQuotient(a, b, r) && k == r.exp - (a.exp - b.exp - DivShift(a, b))
    requires pd == Pow10(k) * DivDen(a, b) && c == r.coef * pd
    ensures 2 * c <= 2 * DivNum(a, b) + pd && 2 * DivNum(a, b) <= 2 * c + pd
  {
  }

  /** DivAtCommonExponent when the dividend was shifted. */
  lemma {:induction false} CommonExponentDividend(a: Dec, b: Dec, r: Dec, one: Dec, k: nat, pd: nat, c: nat, t: int)
    requires DivShift(a, b) >= 0 && one.coef == 1 && one.exp == r.exp
    requires k == r.exp - (a.exp - b.exp - DivShift(a, b))
    requires pd == Pow10(k) * DivDen(a, b) && c == r.coef * pd
    requires t == a.exp - DivShift(a, b)
    ensures Value(r) * Value(b) == Value(Dec(c, t)) && Value(one) * Value(b) == Value(Dec(pd, t))
    ensures Value(a) == Value(Dec(DivNum(a, b), t))
  {
    var s: nat := DivShift(a, b);
    assert pd == b.coef * Pow10(k);
    ProductAtExponent(r, b, t, k, pd);
    assert one.coef * pd == pd;
    ProductAtExponent(one, b, t, k, pd);
    assert DivNum(a, b) == a.coef * Pow10(s);
    ValueShift(a.coef, t, s);
  }

  /** DivAtCommonExponent when the divisor was shifted. */
  lemma {:induction false} CommonExponentDivisor(a: Dec, b: Dec, r: Dec, one: Dec, k: nat, pd: nat, c: nat, t: int)
    requires DivShift(a, b) < 0 && one.coef == 1 && one.exp == r.exp
    requires k == r.exp - (a.exp - b.exp - DivShift(a, b))
    requires pd == Pow10(k) * DivDen(a, b) && c == r.coef * pd
    requires t == a.exp
    ensures Value(r) * Value(b) == Value(Dec(c, t)) && Value(one) * Value(b) == Value(Dec(pd, t))
    ensures Value(a) == Value(Dec(DivNum(a, b), t))
  {
    var m: nat := -DivShift(a, b);
    assert pd == b.coef * Pow10(k + m) by {
      assert DivDen(a, b) == b.coef * Pow10(m);
      PowerSplit(k + m, m, k);
    }
    ProductAtExponent(r, b, t, k + m, pd);
    assert one.coef * pd == pd;
    ProductAtExponent(one, b, t, k + m, pd);
  }

  /** x times y, where y's coefficient times 10^(x.exp + y.exp - t) is f:
      the product's value is that of x.coef * f at exponent t. */
  lemma {:induction false} ProductAtExponent(x: Dec, y: Dec, t: int, j: nat, f: nat)
    requires j == x.exp + y.exp - t && f == y.coef * Pow10(j)
    ensures Value(x) * Value(y) == Value(Dec(x.coef * f, t))
  {
    assert (x.coef * y.coef) * Pow10(j) == x.coef * f;
    ScaledProduct(x, y, t, x.coef * f);
  }

  /** The product of two values, written at a lower exponent t. */
  lemma {:induction false} ScaledProduct(x: Dec, y: Dec, t: int, g: nat)
    requires x.exp + y.exp >= t && g == (x.coef * y.coef) * Pow10(x.exp + y.exp - t)
    ensures Value(x) * Value(y) == Value(Dec(g, t))
  {
    ExactProductValue(x, y);
    ValueShift(x.coef * y.coef, t, x.exp + y.exp - t);
  }

  /** Bounds on v * w, for a positive w, divided through by w. */
  lemma {:induction false} DivideBounds(v: real, w: real, z: real, u: real)
    requires w > 0.0
    requires v * w <= z + (u * w) / 2.0 && z - (u * w) / 2.0 <= v * w
    ensures z / w - u / 2.0 <= v <= z / w + u / 2.0
  {
    assert (z + (u * w) / 2.0) / w == z / w + u / 2.0;
    assert (z - (u * w) / 2.0) / w == z / w - u / 2.0;
  }

  /** 125.0 / 750.0 under the default context: 1/6 rounded to 28 digits,
      which is above 1/6. */
  lemma {:induction false} SmallServingQuotient()
    ensures Div(Dec(1250, -1), Dec(7500, -1)) == Dec(1666666666666666666666666667, -28)
    ensures Value(Dec(1666666666666666666666666667, -28)) > 125.0 / 750.0
  {
    var a, b := Dec(1250, -1), Dec(7500, -1);
    assert DivShift(a, b) == 29 by {
      assert Pow10(3) == 1000 && Pow10(4) == 10000;
      DigitsBetween(1250, 4);
      DigitsBetween(7500, 4);
    }
    assert DivNum(a, b) == 125000000000000000000000000000000 by {
      Pow10Values();
    }
    assert DivDen(a, b) == 7500;
    SmallServingIntegerQuotient();
    SixthRoundedUp();
  }

  /** 0.1666666666666666666666666667 is above a sixth. */
  lemma {:induction false} SixthRoundedUp()
    ensures Value(Dec(1666666666666666666666666667, -28)) > 125.0 / 750.0
  {
    Pow10Values();
  }

  /** The integer step of 125.0 / 750.0: a 29-digit quotient with a
      remainder, not a multiple of 5, rounded to 28 digits. */
  lemma {:induction false} SmallServingIntegerQuotient()
    ensures Quotient(125000000000000000000000000000000, 7500, -29, 0) == Dec(1666666666666666666666666667, -28)
  {
    assert DivMod(125000000000000000000000000000000, 7500) == (16666666666666666666666666666, 5000);
    assert InexactQuotient(125000000000000000000000000000000, 7500, 16666666666666666666666666666, 5000, -29)
        == Dec(1666666666666666666666666667, -28) by {
      assert 16666666666666666666666666666 % 5 == 1;
      SmallServingFix();
    }
  }

  /** _fix of the 29-digit quotient: its last digit, 6, rounds up. */
  lemma {:induction false} SmallServingFix()
    ensures Fix(Dec(16666666666666666666666666666, -29)) == Dec(1666666666666666666666666667, -28)
  {
    Pow10Values();
    DigitsBetween(16666666666666666666666666666, 29);
    DigitsBetween(1666666666666666666666666667, 28);
    assert HalfEvenDiv(16666666666666666666666666666, 10) == 1666666666666666666666666667;
  }

  /** A two-decimal Decimal is worth its coefficient in hundredths. */
  lemma {:induction false} PenceValue(c: nat)
    ensures Value(Dec(c, -2)) == c as real / 100.0
  {
    assert Pow10(2) == 100;
  }

  /** That quotient times 18.00, rounded to 28 digits: just above 3. */
  lemma {:induction false} EighteenPoundProduct()
    ensures Mul(Dec(1666666666666666666666666667, -28), Dec(1800, -2)) == Dec(3000000000000000000000000001, -27)
  {
    Pow10Values();
    DigitsBetween(3000000000000000000000000000600, 31);
    DigitsBetween(3000000000000000000000000001, 28);
  }

  /** The product quantized up to 0.1: 3.000...001 becomes 3.1. */
  lemma {:induction false} EighteenPoundTenths()
    ensures Quantize(Dec(3000000000000000000000000001, -27), -1, RoundUp) == Some(Dec(31, -1))
  {
    Pow10Values();
    DigitsBetween(3000000000000000000000000001, 28);
    DigitsBetween(31, 2);
  }

  /** 3.1 quantized to 0.10 is 3.10. */
  lemma {:induction false} EighteenPoundHundredths()
    ensures Quantize(Dec(31, -1), -2, RoundHalfEven) == Some(Dec(310, -2))
  {
    Pow10Values();
    DigitsBetween(31, 2);
    DigitsBetween(310, 3);
  }

  /** The Small serving (125.0) of a bottle priced 18.00: the source charges
      3.10, while a sixth of 18.00 is exactly 3.00 and the exact model
      charges 3.00. The quotient 125.0 / 750.0 is rounded up to
      0.1666666666666666666666666667 before the multiply, which lifts the
      product just above 3 and ROUND_UP then adds a further 10p. */
  lemma {:induction false} SmallGlassOfEighteenPoundBottle()
    ensures WinePriceAsWritten(Dec(1250, -1), Dec(1800, -2), Dec(0, -2)) == Some(Dec(310, -2))
    ensures Value(Dec(310, -2)) == 3.10
    ensures Modifiers.WineGlassPrice(125.0, 18.00, 0.00) == 3.00
  {
    SmallServingQuotient();
    EighteenPoundProduct();
    EighteenPoundTenths();
    EighteenPoundHundredths();
    WinePriceSteps(Dec(1250, -1), Dec(1800, -2), Dec(1666666666666666666666666667, -28),
                   Dec(3000000000000000000000000001, -27), Dec(31, -1), Dec(310, -2));
    PenceValue(310);
    Modifiers.SmallGlassAtEighteenPounds();
  }

  /** That quotient times 9.00, rounded to 28 digits: exactly 1.5. */
  lemma {:induction false} NinePoundProduct()
    ensures Mul(Dec(1666666666666666666666666667, -28), Dec(900, -2)) == Dec(1500000000000000000000000000, -27)
  {
    Pow10Values();
    DigitsBetween(1500000000000000000000000000300, 31);
    DigitsBetween(1500000000000000000000000000, 28);
  }

  /** The product quantized up to 0.1: exactly 1.5. */
  lemma {:induction false} NinePoundTenths()
    ensures Quantize(Dec(1500000000000000000000000000, -27), -1, RoundUp) == Some(Dec(15, -1))
  {
    Pow10Values();
    DigitsBetween(1500000000000000000000000000, 28);
    DigitsBetween(15, 2);
  }

  /** 1.5 quantized to 0.10 is 1.50. */
  lemma {:induction false} NinePoundHundredths()
    ensures Quantize(Dec(15, -1), -2, RoundHalfEven) == Some(Dec(150, -2))
  {
    Pow10Values();
    DigitsBetween(15, 2);
    DigitsBetween(150, 3);
  }

  /** The Small serving of a bottle priced 9.00 costs 1.50 as the source
      computes it too: the rounded product, 1.500000000000000000000000000,
      is not lifted above 1.5, so here the exact and the as-written prices
      agree. */
  lemma {:induction false} SmallGlassOfNinePoundBottle()
    ensures WinePriceAsWritten(Dec(1250, -1), Dec(900, -2), Dec(0, -2)) == Some(Dec(150, -2))
    ensures Value(Dec(150, -2)) == Modifiers.WineGlassPrice(125.0, 9.00, 0.00)
  {
    SmallServingQuotient();
    NinePoundProduct();
    NinePoundTenths();
    NinePoundHundredths();
    WinePriceSteps(Dec(1250, -1), Dec(900, -2), Dec(1666666666666666666666666667, -28),
                   Dec(1500000000000000000000000000, -27), Dec(15, -1), Dec(150, -2));
    PenceValue(150);
    Modifiers.SmallGlassAtNinePounds();
  }
}
