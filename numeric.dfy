/** Real-number helpers shared by grading, the plausibility filter and answer rounding. */
module Numeric {

  function Abs(x: real): (r: real)
    ensures r >= 0.0 && (r == x || r == -x)
  {
    if x < 0.0 then -x else x
  }

  function Pow10(d: nat): (r: real)
    ensures r >= 1.0
  {
    if d == 0 then 1.0 else 10.0 * Pow10(d - 1)
  }

  lemma Pow10Tiers()
    ensures Pow10(0) == 1.0 && Pow10(2) == 100.0 && Pow10(4) == 10_000.0 && Pow10(6) == 1_000_000.0
  {
    assert Pow10(1) == 10.0;
    assert Pow10(3) == 1000.0;
    assert Pow10(5) == 100_000.0;
  }

  /** Rounding to the nearest multiple of `1 / p` (ties upward). */
  function RoundAt(x: real, p: real): real
    requires p > 0.0
  {
    (x * p + 0.5).Floor as real / p
  }

  /** `round(x, d)` as rounding to the nearest multiple of `10^-d`. */
  function RoundTo(x: real, d: nat): real
  {
    RoundAt(x, Pow10(d))
  }

  /** Rounding to `d` decimals moves a value by at most half a unit in the last place. */
  lemma RoundError(x: real, d: nat)
    ensures Abs(RoundTo(x, d) - x) <= 0.5 / Pow10(d)
  {
    RoundAtError(x, Pow10(d));
  }

  lemma RoundAtError(x: real, p: real)
    requires p > 0.0
    ensures Abs(RoundAt(x, p) - x) <= 0.5 / p
  {
    var f := (x * p + 0.5).Floor as real;
    FloorBounds(x * p + 0.5);
    var g := f - x * p;
    assert RoundAt(x, p) - x == g / p;
    if g >= 0.0 {
      assert g / p <= 0.5 / p;
    } else {
      assert -g / p <= 0.5 / p;
    }
  }

  lemma FloorBounds(z: real)
    ensures z - 1.0 < z.Floor as real <= z
  {
  }
}
