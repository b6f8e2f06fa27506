/** Exact decimal money and quantity values, and the two rounding steps the
    till uses on them: Decimal.quantize(Decimal("0.1"), rounding=ROUND_UP)
    and Decimal.quantize(Decimal("0.10")) under the default half-even
    rounding. Values are Dafny reals, so every other operation is exact. */
module Money {

  /** x is a whole number of tenths (representable at exponent -1). */
  predicate IsTenth(x: real) {
    (x * 10.0).Floor as real == x * 10.0
  }

  /** x is a whole number of hundredths (pence). */
  predicate IsHundredth(x: real) {
    (x * 100.0).Floor as real == x * 100.0
  }

  /** n tenths, as a value, is a whole number of tenths. */
  lemma {:induction false} TenthsAreTenths(n: int)
    ensures IsTenth(n as real / 10.0)
  {
    assert n as real / 10.0 * 10.0 == n as real;
  }

  /** The least integer that is not below y. */
  function Ceil(y: real): (c: int)
    ensures y <= c as real < y + 1.0
  {
    if y.Floor as real == y then y.Floor else y.Floor + 1
  }

  /** quantize(Decimal("0.1"), rounding=ROUND_UP): the multiple of 0.1 next
      to x on the side away from zero (x itself when it already is one). */
  function RoundUpTenth(x: real): (r: real)
    ensures IsTenth(r)
    ensures 0.0 <= x ==> x <= r < x + 0.1
    ensures x <= 0.0 ==> x - 0.1 < r <= x
  {
    if x >= 0.0 then
      var c := Ceil(x * 10.0);
      TenthsAreTenths(c);
      c as real / 10.0
    else
      var c := Ceil(-x * 10.0);
      TenthsAreTenths(-c);
      -c as real / 10.0
  }

  /** No multiple of 0.1 lies between x and RoundUpTenth(x): rounding up
      takes the nearest tenth on the far side of x and never skips one. */
  lemma {:induction false} RoundUpTenthIsNearest(x: real, t: real)
    requires IsTenth(t)
    ensures 0.0 <= x <= t ==> RoundUpTenth(x) <= t
    ensures t <= x <= 0.0 ==> t <= RoundUpTenth(x)
  {
    var n := (t * 10.0).Floor;
    assert n as real == t * 10.0;
    if 0.0 <= x <= t {
      assert x * 10.0 <= n as real;
      assert Ceil(x * 10.0) <= n;
    }
    if t <= x <= 0.0 {
      assert -x * 10.0 <= -n as real;
      assert Ceil(-x * 10.0) <= -n;
    }
  }

  /** A value that already is a whole number of tenths is left alone. */
  lemma {:induction false} RoundUpTenthKeepsTenths(t: real)
    requires IsTenth(t)
    ensures RoundUpTenth(t) == t
  {
    RoundUpTenthIsNearest(t, t);
  }

  /** Two whole numbers of tenths less than 0.1 apart are equal. */
  lemma {:induction false} TenthsApart(a: real, b: real)
    requires IsTenth(a) && IsTenth(b) && a < b + 0.1 && b < a + 0.1
    ensures a == b
  {
    var na, nb := (a * 10.0).Floor, (b * 10.0).Floor;
    assert na < nb + 1 && nb < na + 1;
  }

  /** For a non-negative x, RoundUpTenth(x) is the only whole number of
      tenths from x up to (not including) x + 0.1. */
  lemma {:induction false} RoundUpTenthUnique(x: real, t: real)
    requires 0.0 <= x && IsTenth(t) && x <= t < x + 0.1
    ensures RoundUpTenth(x) == t
  {
    TenthsApart(RoundUpTenth(x), t);
  }

  /** Rounding away from zero to tenths preserves the order of its inputs. */
  lemma {:induction false} RoundUpTenthMonotone(x: real, y: real)
    requires x <= y
    ensures RoundUpTenth(x) <= RoundUpTenth(y)
  {
    if 0.0 <= x {
      RoundUpTenthIsNearest(x, RoundUpTenth(y));
    } else if y <= 0.0 {
      RoundUpTenthIsNearest(y, RoundUpTenth(x));
    }
  }

  /** The integer nearest to y; a tie goes to the even neighbour (ROUND_HALF_EVEN). */
  function RoundHalfEven(y: real): (n: int)
    ensures y - 0.5 <= n as real <= y + 0.5
    ensures (n as real - y == 0.5 || y - n as real == 0.5) ==> n % 2 == 0
  {
    var f := y.Floor;
    var frac := y - f as real;
    if frac > 0.5 || (frac == 0.5 && f % 2 == 1) then f + 1 else f
  }

  /** quantize(Decimal("0.10")) under the default context rounding
      (half-even): the nearest whole number of pence, a tie going to an even
      number of pence. */
  function QuantizeHundredth(x: real): (r: real)
    ensures IsHundredth(r)
    ensures x - 0.005 <= r <= x + 0.005
    ensures (r - x == 0.005 || x - r == 0.005) ==> (r * 100.0).Floor % 2 == 0
  {
    var n := RoundHalfEven(x * 100.0);
    assert (n as real / 100.0) * 100.0 == n as real;
    n as real / 100.0
  }

  /** Re-quantising a one-decimal value to two decimals is exact: it adds a
      trailing zero and does not change the value. */
  lemma {:induction false} QuantizeHundredthKeepsTenths(x: real)
    requires IsTenth(x)
    ensures QuantizeHundredth(x) == x
  {
    var n := (x * 10.0).Floor;
    assert x * 100.0 == (10 * n) as real;
    assert (x * 100.0).Floor == 10 * n;
  }
}
