/**
 * The problem generator (`generate_problem_from_template`, `generate_fallback_problem`
 * and `get_adaptive_default_range`).
 *
 * Randomness and formula evaluation are oracles carried in an `Env`: `sample(round,
 * name, lo, hi)` is the value `round(random.uniform(lo, hi), 2)` drawn for variable
 * `name` in attempt `round` (the fallback draws in round `maxAttempts`), and
 * `eval(formula, values)` is the sympy evaluation of the solution formula, either
 * failed (any exception) or the list of floats it produced (one for a scalar result).
 */
module Generator {
  import opened Wrappers
  import opened Text
  import opened Numeric
  import opened Dict
  import opened Placeholders
  import opened Plausibility
  import opened Grading

  /** A row of `problem_templates`. An empty `variables` / `answerUnits` string stands
    * for an empty or NULL column. */
  datatype Template = Template(
    id: int,
    name: string,
    text: string,
    variables: string,
    formula: string,
    answerCount: nat,
    answerUnits: string,
    image: Option<string>)

  /** The dictionary the generator returns (`result_data`). */
  datatype Instance = Instance(
    text: string,
    varValues: VarValues,
    answers: seq<real>,
    units: seq<string>,
    templateId: int,
    answerCount: nat,
    templateName: string,
    image: Option<string>)

  datatype Evaluated = Failed | Values(vals: seq<real>)

  datatype Env = Env(
    sample: (nat, string, real, real) -> real,
    eval: (string, VarValues) -> Evaluated,
    isWord: char -> bool,
    show: real -> string)

  /** `[v.strip() for v in s.split(',')] if s else []`. */
  function ParseList(s: string): (r: seq<string>)
    ensures s == [] ==> r == []
    ensures s != [] ==> (|r| == |Split(s, ',')| &&
      forall k :: 0 <= k < |r| ==> r[k] == Strip(Split(s, ',')[k]))
  {
    if s == [] then []
    else
      var parts := Split(s, ',');
      seq(|parts|, k requires 0 <= k < |parts| => Strip(parts[k]))
  }

  // ---------------------------------------------------------------------------
  // Default ranges by variable name

  /** The branches of `get_adaptive_default_range`, in source order. */
  datatype RangeRule =
    Geometric | Velocity | Field | Current | Resistance | Mass | Angular | Rate | Density | Generic

  const GEOMETRIC: seq<string> := ["r", "a", "l", "d", "x", "h"]
  const VELOCITY: seq<string> := ["v", "u", "w", "speed", "velocity"]
  const FIELD: seq<string> := ["b", "e", "f", "field"]
  const CURRENT: seq<string> := ["i", "current"]
  const RESISTANCE: seq<string> := ["r", "resistance"]
  const MASS: seq<string> := ["m", "mass"]
  const ANGULAR: seq<string> := ["omega", "\U{3C9}", "angular"]
  const RATE: seq<string> := ["dbdt", "alpha", "rate"]
  const DENSITY: seq<string> := ["density"]

  /** `any(k in s for k in needles)`, each `k in s` a substring test. */
  predicate AnyIn(s: string, needles: seq<string>)
  {
    exists k :: 0 <= k < |needles| && Contains(s, needles[k])
  }

  /** The branch taken for a variable name (after `lower()`). */
  function Classify(name: string): RangeRule
  {
    var l := Lower(name);
    if AnyIn(l, GEOMETRIC) then Geometric
    else if AnyIn(l, VELOCITY) then Velocity
    else if AnyIn(l, FIELD) then Field
    else if AnyIn(l, CURRENT) then Current
    else if AnyIn(l, RESISTANCE) then Resistance
    else if AnyIn(l, MASS) then Mass
    else if AnyIn(l, ANGULAR) then Angular
    else if AnyIn(l, RATE) then Rate
    else if AnyIn(l, DENSITY) then Density
    else Generic
  }

  function RuleRange(rule: RangeRule): (real, real)
  {
    match rule
    case Geometric => (0.1, 10.0)
    case Velocity => (1.0, 50.0)
    case Field => (0.1, 5.0)
    case Current => (0.1, 10.0)
    case Resistance => (1.0, 100.0)
    case Mass => (0.01, 5.0)
    case Angular => (1.0, 20.0)
    case Rate => (0.1, 10.0)
    case Density => (1000.0, 10000.0)
    case Generic => (0.5, 20.0)
  }

  /** `get_adaptive_default_range(name)`: a positive, non-empty range. */
  function AdaptiveRange(name: string): (r: (real, real))
    ensures 0.0 < r.0 < r.1
  {
    RuleRange(Classify(name))
  }

  /** A name containing a needle that has one of r, a, l, d, x, h in it is geometric. */
  lemma GeometricFromChar(l: string, needle: string, j: nat)
    requires Contains(l, needle) && j < |needle| && [needle[j]] in GEOMETRIC
    ensures AnyIn(l, GEOMETRIC)
  {
    ContainsCharOf(l, needle, j);
    CharIsSubstring(l, needle[j]);
    var k :| 0 <= k < |GEOMETRIC| && GEOMETRIC[k] == [needle[j]];
    assert Contains(l, GEOMETRIC[k]);
  }

  /** Every needle of the resistance, rate and density branches contains r, a or d, so the
    * first branch always catches those names first: the three branches are unreachable. */
  lemma UnreachableRules(name: string)
    ensures Classify(name) != Resistance
    ensures Classify(name) != Rate
    ensures Classify(name) != Density
  {
    var l := Lower(name);
    assert [RESISTANCE[1][0]] == GEOMETRIC[0] && [RATE[0][0]] == GEOMETRIC[3];
    assert [RATE[1][0]] == GEOMETRIC[1] && [RATE[2][1]] == GEOMETRIC[1];
    assert [DENSITY[0][0]] == GEOMETRIC[3];
    if AnyIn(l, RESISTANCE) {
      var k :| 0 <= k < |RESISTANCE| && Contains(l, RESISTANCE[k]);
      GeometricFromChar(l, RESISTANCE[k], 0);
    }
    if AnyIn(l, RATE) {
      var k :| 0 <= k < |RATE| && Contains(l, RATE[k]);
      GeometricFromChar(l, RATE[k], if k == 2 then 1 else 0);
    }
    if AnyIn(l, DENSITY) {
      GeometricFromChar(l, DENSITY[0], 0);
    }
  }

  /** "omega" and "angular" contain 'a', so the angular branch is reached only through
    * the Greek letter itself. */
  lemma AngularOnlyThroughOmega(name: string)
    ensures Classify(name) == Angular ==> '\U{3C9}' in Lower(name)
  {
    var l := Lower(name);
    assert [ANGULAR[0][4]] == GEOMETRIC[1] && [ANGULAR[2][0]] == GEOMETRIC[1];
    if AnyIn(l, ANGULAR) {
      var k :| 0 <= k < |ANGULAR| && Contains(l, ANGULAR[k]);
      if k == 0 {
        GeometricFromChar(l, ANGULAR[0], 4);
      } else if k == 2 {
        GeometricFromChar(l, ANGULAR[2], 0);
      } else {
        ContainsCharOf(l, ANGULAR[1], 0);
      }
    }
  }

  // ---------------------------------------------------------------------------
  // Range expansion

  /** The sampling range of attempt `attempt`: `max(0.01, lo / e)` to `hi * e` with
    * `e = 1 + 0.1 * attempt`. */
  function ExpandedRange(range: (real, real), attempt: nat): (real, real)
  {
    var e := 1.0 + attempt as real * 0.1;
    var lo := range.0 / e;
    (if lo < 0.01 then 0.01 else lo, range.1 * e)
  }

  /** The range only grows from one attempt to a later one, and never reaches below 0.01. */
  lemma ExpansionWidens(range: (real, real), m: nat, n: nat)
    requires 0.0 <= range.0 && 0.0 <= range.1 && m <= n
    ensures ExpandedRange(range, n).0 <= ExpandedRange(range, m).0
    ensures ExpandedRange(range, m).1 <= ExpandedRange(range, n).1
    ensures ExpandedRange(range, n).0 >= 0.01
  {
    DivideByLarger(range.0, 1.0 + m as real * 0.1, 1.0 + n as real * 0.1);
    assert range.1 * (1.0 + m as real * 0.1) <= range.1 * (1.0 + n as real * 0.1) by {
      assert range.1 * ((1.0 + n as real * 0.1) - (1.0 + m as real * 0.1)) >= 0.0;
    }
  }

  // ---------------------------------------------------------------------------
  // One attempt

  /** The `var_values` dictionary of one draw round, in variable order (a repeated
    * name keeps its first position and its last value). */
  function SampleAll(names: seq<string>, round: nat, fixed: Option<(real, real)>,
                     sample: (nat, string, real, real) -> real): (r: VarValues)
    ensures DistinctKeys(r)
    ensures forall k :: 0 <= k < |names| ==> Get(r, names[k]).Some?
  {
    if names == [] then []
    else
      var prefix := SampleAll(names[..|names| - 1], round, fixed, sample);
      var v := names[|names| - 1];
      var range := match fixed
        case Some(r) => r
        case None => ExpandedRange(AdaptiveRange(v), round);
      var r := Put(prefix, v, sample(round, v, range.0, range.1));
      assert forall k :: 0 <= k < |names| - 1 ==> names[k] == names[..|names| - 1][k];
      r
  }

  /** `[answers[0]] * n` when the count differs; an empty result with `n > 0` raises
    * `IndexError` (`None` here). */
  function Broadcast(vals: seq<real>, n: nat): (r: Option<seq<real>>)
    ensures |vals| == n ==> r == Some(vals)
    ensures r.None? <==> |vals| != n && vals == []
    ensures r.Some? ==> |r.value| == n
    ensures r.Some? && |vals| != n ==> forall i :: 0 <= i < n ==> r.value[i] == vals[0]
  {
    if |vals| == n then Some(vals)
    else if vals == [] then None
    else Some(seq(n, _ => vals[0]))
  }

  /** Units padded with `''` or truncated to exactly `n`. */
  function FitUnits(units: seq<string>, n: nat): (r: seq<string>)
    ensures |r| == n
    ensures forall i :: 0 <= i < n && i < |units| ==> r[i] == units[i]
    ensures forall i :: |units| <= i < n ==> r[i] == ""
  {
    if |units| < n then units + seq(n - |units|, _ => "")
    else if |units| > n then units[..n]
    else units
  }

  /** Decimals kept by the main path: 0, 2, 4 or 6 by magnitude. */
  function MainDecimals(a: real): nat
  {
    if Abs(a) >= 1000.0 then 0 else if Abs(a) >= 1.0 then 2 else if Abs(a) >= 0.01 then 4 else 6
  }

  /** Answer rounding of the main path; an exact zero is stored as `0.0`. */
  function FormatMain(a: real): real
  {
    if Abs(a) == 0.0 then 0.0 else RoundTo(a, MainDecimals(a))
  }

  /** Decimals kept by the fallback: 0, 2 or 4, with no six-decimal tier. */
  function FallbackDecimals(a: real): nat
  {
    if Abs(a) >= 1000.0 then 0 else if Abs(a) >= 1.0 then 2 else 4
  }

  function FormatFallback(a: real): real
  {
    RoundTo(a, FallbackDecimals(a))
  }

  /** For every answer of magnitude at least 0.01 both paths round the same way, and the
    * stored value is within 0.5% of the computed one. */
  lemma RoundingWithinHalfPercent(a: real)
    requires Abs(a) >= 0.01
    ensures FormatMain(a) == FormatFallback(a)
    ensures Abs(FormatMain(a) - a) <= 0.005 * Abs(a)
  {
    Pow10Tiers();
    RoundError(a, MainDecimals(a));
  }

  /** Below 0.01 the two paths differ: six decimals in the main path, four in the fallback. */
  lemma TiersDifferBelowHundredth(a: real)
    requires 0.0 < Abs(a) < 0.01
    ensures MainDecimals(a) == 6 && FallbackDecimals(a) == 4
  {
  }

  /** A student who enters the exact computed answer is graded correct against the stored,
    * rounded answer whenever that answer has magnitude at least 0.01. */
  lemma ExactAnswerAccepted(a: real)
    requires Abs(a) >= 0.01
    ensures IsCorrect(Num(a), Num(FormatMain(a)))
  {
    RoundingWithinHalfPercent(a);
    var f := FormatMain(a);
    assert Abs(f) >= 0.995 * Abs(a);
    CorrectIffWithinBand(a, f);
  }

  /** Below 0.01 that fails: 1.3e-6 is stored as 1e-6, a 30% relative error. */
  lemma TinyAnswerRejected()
    ensures FormatMain(0.000_001_3) == 0.000_001
    ensures !IsCorrect(Num(0.000_001_3), Num(FormatMain(0.000_001_3)))
  {
    Pow10Tiers();
    assert 0.000_001_3 * Pow10(6) + 0.5 == 1.8;
    assert (1.8).Floor == 1;
    CorrectIffWithinBand(0.000_001_3, 0.000_001);
  }

  /** The candidate built by attempt `attempt` (`None` when evaluation fails, the answer
    * list cannot be broadcast, or the plausibility filter rejects it). */
  function Attempt(t: Template, templateId: int, attempt: nat, env: Env): (r: Option<Instance>)
    ensures r.Some? ==> |r.value.answers| == t.answerCount && |r.value.units| == t.answerCount
  {
    var names := ParseList(t.variables);
    var vars := SampleAll(names, attempt, None, env.sample);
    var text := Substitute(t.text, vars, env.isWord, env.show);
    match env.eval(t.formula, vars)
    case Failed => None
    case Values(vals) =>
      match Broadcast(vals, t.answerCount)
      case None => None
      case Some(answers) =>
        if Reasonable(answers, vars, attempt) then
          Some(Instance(text, vars, seq(|answers|, i requires 0 <= i < |answers| => FormatMain(answers[i])),
                        FitUnits(ParseList(t.answerUnits), t.answerCount),
                        templateId, t.answerCount, t.name, t.image))
        else None
  }

  /** The answers of the fallback: the broadcast evaluation, or zeros when it fails. */
  function FallbackAnswers(ev: Evaluated, n: nat): (r: seq<real>)
    ensures |r| == n
    ensures ev.Failed? ==> forall i :: 0 <= i < n ==> r[i] == 0.0
  {
    match ev
    case Failed => seq(n, _ => 0.0)
    case Values(vals) =>
      match Broadcast(vals, n)
      case Some(answers) => answers
      case None => seq(n, _ => 0.0)
  }

  /** `generate_fallback_problem`: every variable drawn from [1.0, 3.0], whatever the
    * formula yields accepted. */
  function Fallback(t: Template, round: nat, env: Env): (r: Instance)
    ensures |r.answers| == t.answerCount && |r.units| == t.answerCount
    ensures r.templateId == t.id
  {
    var names := ParseList(t.variables);
    var vars := SampleAll(names, round, Some((1.0, 3.0)), env.sample);
    var answers := FallbackAnswers(env.eval(t.formula, vars), t.answerCount);
    Instance(Substitute(t.text, vars, env.isWord, env.show), vars,
             seq(|answers|, i requires 0 <= i < |answers| => FormatFallback(answers[i])),
             FitUnits(ParseList(t.answerUnits), t.answerCount),
             t.id, t.answerCount, t.name, t.image)
  }

  /** `generate_problem_from_template(template_id, max_attempts)`, given the template
    * lookup's result: `None` only when the template does not exist; otherwise the
    * instance of the first accepted attempt (`round`), or the fallback when no attempt
    * is accepted (`round == maxAttempts`). */
  method Generate(templateId: int, template: Option<Template>, maxAttempts: nat, env: Env)
    returns (r: Option<Instance>, ghost round: nat)
    ensures template.None? <==> r.None?
    ensures template.Some? ==>
      |r.value.answers| == template.value.answerCount && |r.value.units| == template.value.answerCount
    ensures template.Some? ==> round <= maxAttempts
    ensures template.Some? ==> forall j :: 0 <= j < round ==> Attempt(template.value, templateId, j, env).None?
    ensures template.Some? && round < maxAttempts ==> r == Attempt(template.value, templateId, round, env)
    ensures template.Some? && round == maxAttempts ==> r == Some(Fallback(template.value, maxAttempts, env))
  {
    round := 0;
    if template.None? {
      return None, round;
    }
    var t := template.value;
    var attempt := 0;
    while attempt < maxAttempts
      invariant 0 <= attempt <= maxAttempts
      invariant forall j :: 0 <= j < attempt ==> Attempt(t, templateId, j, env).None?
    {
      var candidate := Attempt(t, templateId, attempt, env);
      if candidate.Some? {
        return candidate, attempt;
      }
      forall j | 0 <= j < attempt + 1 ensures Attempt(t, templateId, j, env).None? {
        if j == attempt {
        }
      }
      attempt := attempt + 1;
    }
    return Some(Fallback(t, maxAttempts, env)), maxAttempts;
  }

  /** An instance from an accepted attempt carries answers whose unrounded values passed
    * the filter of that attempt, and the problem text built from its own variable values. */
  lemma AcceptedAttemptIsPlausible(t: Template, templateId: int, attempt: nat, env: Env)
    requires Attempt(t, templateId, attempt, env).Some?
    ensures var inst := Attempt(t, templateId, attempt, env).value;
      && inst.text == Substitute(t.text, inst.varValues, env.isWord, env.show)
      && env.eval(t.formula, inst.varValues).Values?
      && var raw := Broadcast(env.eval(t.formula, inst.varValues).vals, t.answerCount);
         raw.Some? && Reasonable(raw.value, inst.varValues, attempt)
         && forall i :: 0 <= i < |raw.value| ==> inst.answers[i] == FormatMain(raw.value[i])
  {
  }
}
