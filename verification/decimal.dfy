/** Decimal rounding as the services apply it to numbers.

    The source rounds with `parseFloat(x.toFixed(2))` and `Math.round(x)` on
    IEEE 754 doubles. Here values are exact rationals (`real`): `toFixed(2)`
    picks the nearest multiple of 1/100, ties away from zero, and returns
    values of magnitude 10^21 or more unchanged (they print in exponent
    form); `Math.round` is the floor of x + 1/2. Binary representation error
    is not modelled. */
module Decimal {

  function Abs(x: real): real {
    if x < 0.0 then -x else x
  }

  /** Magnitude from which `toFixed` prints the number itself. */
  const ToFixedLimit: real := 1000000000000000000000.0

  /** `Math.round(x)`. */
  function MathRound(x: real): (n: int)
    ensures x - 0.5 < n as real <= x + 0.5
  {
    (x + 0.5).Floor
  }

  /** The multiple of 1/100 with `k` hundredths. */
  function Cents(k: int): real {
    k as real / 100.0
  }

  /** Rounding a non-negative value to hundredths, halves up: the result is
      a whole number of hundredths within half a hundredth of `y`, above it
      on a tie. */
  function RoundMagnitude(y: real): (r: real)
    requires y >= 0.0
    ensures r >= 0.0 && Abs(r - y) <= 0.005
    ensures exists k: int :: r == Cents(k)
    ensures Abs(r - y) == 0.005 ==> r > y
  {
    Cents((y * 100.0 + 0.5).Floor)
  }

  /** `parseFloat(x.toFixed(2))`: below the exponent-form limit the result
      is a whole number of hundredths within half a hundredth of `x`, and a
      value exactly halfway between two of them goes to the one farther
      from zero; from the limit on the value is kept. */
  function ToFixed2(x: real): (r: real)
    ensures Abs(r - x) <= 0.005
    ensures Abs(x) < ToFixedLimit ==> exists k: int :: r == Cents(k)
    ensures Abs(x) < ToFixedLimit && Abs(r - x) == 0.005 ==> Abs(r) > Abs(x)
    ensures Abs(x) >= ToFixedLimit ==> r == x
  {
    if Abs(x) >= ToFixedLimit then x
    else if x < 0.0 then
      var m := RoundMagnitude(-x);
      NegatedCents(m);
      -m
    else RoundMagnitude(x)
  }

  /** The negation of a whole number of hundredths is one. */
  lemma NegatedCents(m: real)
    requires exists k: int :: m == Cents(k)
    ensures exists k: int :: -m == Cents(k)
  {
    var j: int :| m == Cents(j);
    assert -m == Cents(-j);
  }

  /** Below the exponent-form limit, no hundredth is nearer to `x` than
      `parseFloat(x.toFixed(2))`. */
  lemma ToFixed2Nearest(x: real)
    requires Abs(x) < ToFixedLimit
    ensures forall k: int :: Abs(ToFixed2(x) - x) <= Abs(Cents(k) - x)
  {
    var r := ToFixed2(x);
    var j: int :| r == Cents(j);
    forall k: int
      ensures Abs(r - x) <= Abs(Cents(k) - x)
    {
      if k > j {
        assert Cents(k) >= r + 0.01;
      } else if k < j {
        assert Cents(k) <= r - 0.01;
      }
    }
  }

  lemma RoundMagnitudeMonotone(x: real, y: real)
    requires 0.0 <= x <= y
    ensures RoundMagnitude(x) <= RoundMagnitude(y)
  {
    assert (x * 100.0 + 0.5).Floor <= (y * 100.0 + 0.5).Floor;
  }

  /** Rounding to hundredths never reverses the order of two values below
      the exponent-form limit. */
  lemma ToFixed2Monotone(x: real, y: real)
    requires x <= y && Abs(x) < ToFixedLimit && Abs(y) < ToFixedLimit
    ensures ToFixed2(x) <= ToFixed2(y)
  {
    if x < 0.0 && y < 0.0 {
      RoundMagnitudeMonotone(-y, -x);
    } else if 0.0 <= x {
      RoundMagnitudeMonotone(x, y);
    }
  }

  /** A value that already has two decimals is returned unchanged. */
  lemma ToFixed2OfCents(k: int)
    requires Abs(k as real) < 100.0 * ToFixedLimit
    ensures ToFixed2(k as real / 100.0) == k as real / 100.0
  {
    var x := k as real / 100.0;
    if k < 0 {
      assert (-x * 100.0 + 0.5).Floor == -k;
    } else {
      assert (x * 100.0 + 0.5).Floor == k;
    }
  }

  /** Values in a range whose ends have two decimals stay in that range. */
  lemma ToFixed2Within(x: real, lo: int, hi: int)
    requires lo as real / 100.0 <= x <= hi as real / 100.0
    requires Abs(lo as real) < 100.0 * ToFixedLimit && Abs(hi as real) < 100.0 * ToFixedLimit
    ensures lo as real / 100.0 <= ToFixed2(x) <= hi as real / 100.0
  {
    ToFixed2OfCents(lo);
    ToFixed2OfCents(hi);
    ToFixed2Monotone(lo as real / 100.0, x);
    ToFixed2Monotone(x, hi as real / 100.0);
  }
}
