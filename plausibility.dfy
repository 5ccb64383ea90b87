/**
 * The plausibility filter of the generator (`is_answer_reasonable_dynamic` and
 * `check_dynamic_consistency`): every answer must lie in a magnitude window and
 * stand in a bounded ratio to the mean absolute variable value, and both windows
 * widen with the attempt number. Floats are reals here, so the finiteness test is
 * always passed (see README).
 */
module Plausibility {
  import opened Dict
  import opened Placeholders
  import opened Numeric

  function Sum(s: seq<real>): real
  {
    if s == [] then 0.0 else Sum(s[..|s| - 1]) + s[|s| - 1]
  }

  function AbsAll(s: seq<real>): (r: seq<real>)
    ensures |r| == |s| && forall i :: 0 <= i < |s| ==> r[i] == Abs(s[i]) && r[i] >= 0.0
  {
    seq(|s|, i requires 0 <= i < |s| => Abs(s[i]))
  }

  lemma {:induction false} SumNonNegative(s: seq<real>)
    requires forall i :: 0 <= i < |s| ==> s[i] >= 0.0
    ensures Sum(s) >= 0.0
  {
    if s != [] {
      SumNonNegative(s[..|s| - 1]);
    }
  }

  /** `1e6 * (1 + attempt * 0.2)` */
  function MaxMagnitude(attempt: nat): real { 1_000_000.0 * (1.0 + attempt as real * 0.2) }

  /** `1e-8 / (1 + attempt * 0.2)` */
  function MinMagnitude(attempt: nat): real { 0.000_000_01 / (1.0 + attempt as real * 0.2) }

  /** `1 + attempt * 0.3` */
  function Relaxation(attempt: nat): real { 1.0 + attempt as real * 0.3 }

  function MaxRatio(attempt: nat): real { 1000.0 * Relaxation(attempt) }

  function MinRatio(attempt: nat): real { 0.001 / Relaxation(attempt) }

  /** The magnitude test; an exact zero passes it. */
  predicate MagnitudeOk(a: real, attempt: nat)
  {
    !(Abs(a) > MaxMagnitude(attempt) || (0.0 < Abs(a) < MinMagnitude(attempt)))
  }

  /** Mean of the absolute variable values. */
  function MeanAbs(vars: VarValues): real
    requires |vars| > 0
  {
    Sum(AbsAll(Values(vars))) / |vars| as real
  }

  /** `check_dynamic_consistency(answer, var_values, attempt)`. */
  predicate Consistent(a: real, vars: VarValues, attempt: nat)
  {
    if vars == [] then true
    else
      var avg := MeanAbs(vars);
      var ratio := if avg > 0.0 then Abs(a) / avg else Abs(a);
      !(ratio > MaxRatio(attempt) || ratio < MinRatio(attempt))
  }

  /** `is_answer_reasonable_dynamic(answers, var_values, attempt)`: the loop with early
    * returns accepts exactly when the list is non-empty and every answer passes. */
  predicate Reasonable(answers: seq<real>, vars: VarValues, attempt: nat)
  {
    |answers| > 0 &&
    forall i :: 0 <= i < |answers| ==> MagnitudeOk(answers[i], attempt) && Consistent(answers[i], vars, attempt)
  }

  lemma DivideByLarger(a: real, x: real, y: real)
    requires a >= 0.0 && 0.0 < x <= y
    ensures a / y <= a / x
  {
  }

  /** Later attempts never have tighter windows. */
  lemma WindowsWiden(m: nat, n: nat)
    requires m <= n
    ensures MaxMagnitude(m) <= MaxMagnitude(n) && MinMagnitude(n) <= MinMagnitude(m)
    ensures MaxRatio(m) <= MaxRatio(n) && MinRatio(n) <= MinRatio(m)
  {
    DivideByLarger(0.000_000_01, 1.0 + m as real * 0.2, 1.0 + n as real * 0.2);
    DivideByLarger(0.001, Relaxation(m), Relaxation(n));
  }

  /** Thresholds relax with the attempt number: an answer list accepted at attempt
    * `m` is accepted at every later attempt `n`. */
  lemma ReasonableMonotone(answers: seq<real>, vars: VarValues, m: nat, n: nat)
    requires m <= n && Reasonable(answers, vars, m)
    ensures Reasonable(answers, vars, n)
  {
    WindowsWiden(m, n);
    forall i | 0 <= i < |answers|
      ensures MagnitudeOk(answers[i], n) && Consistent(answers[i], vars, n)
    {
      assert MagnitudeOk(answers[i], m) && Consistent(answers[i], vars, m);
    }
  }

  /** An empty answer list is never accepted. */
  lemma RejectsEmpty(vars: VarValues, attempt: nat)
    ensures !Reasonable([], vars, attempt)
  {
  }

  /** An exact zero passes the magnitude test but, when at least one variable is
    * present, fails the ratio test, so any list containing it is rejected. */
  lemma ZeroRejectedWithVariables(answers: seq<real>, vars: VarValues, attempt: nat, k: nat)
    requires k < |answers| && answers[k] == 0.0 && |vars| > 0
    ensures MagnitudeOk(0.0, attempt)
    ensures !Reasonable(answers, vars, attempt)
  {
    SumNonNegative(AbsAll(Values(vars)));
    var avg := MeanAbs(vars);
    assert avg >= 0.0;
    assert (if avg > 0.0 then Abs(0.0) / avg else Abs(0.0)) == 0.0;
    assert MinRatio(attempt) > 0.0;
    assert !Consistent(answers[k], vars, attempt);
  }

  /** An answer of 1e7 against one variable of value 1.0 is
    * rejected at attempt 0 and first accepted at attempt 33330, where the ratio
    * ceiling `1000 * (1 + 0.3 * n)` reaches 1e7. */
  lemma LargeRatioExample(n: nat)
    ensures Reasonable([10_000_000.0], [("v", 1.0)], n) <==> n >= 33330
  {
    var vars: VarValues := [("v", 1.0)];
    assert Values(vars) == [1.0];
    assert AbsAll([1.0]) == [1.0];
    assert MeanAbs(vars) == 1.0;
    if n >= 33330 {
      DivideByLarger(0.000_000_01, 1.0, 1.0 + n as real * 0.2);
      DivideByLarger(0.001, 1.0, Relaxation(n));
      assert MinRatio(n) <= 0.001;
      assert MagnitudeOk(10_000_000.0, n);
      assert Consistent(10_000_000.0, vars, n);
    } else {
      assert n as real <= 33329.0;
      assert MaxRatio(n) < 10_000_000.0;
      assert Abs(10_000_000.0) / 1.0 > MaxRatio(n);
      var answers := [10_000_000.0];
      assert !Consistent(answers[0], vars, n);
      assert !Reasonable([10_000_000.0], vars, n);
    }
  }
}
