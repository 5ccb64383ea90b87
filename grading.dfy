/**
 * Grading of submitted answers (`is_correct`, `classify_error_type`) and the
 * arithmetic of the submit handler: the answer-time clamp, the request keys the
 * answers are read from, the per-answer verdicts and the next problem number.
 * Numbers are reals; see README for what that leaves out.
 */
module Grading {
  import opened Wrappers
  import opened Text
  import opened Numeric

  /** An answer as it reaches `float(...)`: absent (`None`), not convertible, or a number. */
  datatype Answer = Missing | Unparseable | Num(value: real)

  const BASE_TOLERANCE: real := 1.0

  /** Tolerance in percent: 1%, or 1.5% (`min(1.5 * base, 2.0)`) when `log10|c|`
    * is above 10 or below -10, i.e. when `|c| > 1e10` or `|c| < 1e-10`. */
  function Tolerance(c: real): (t: real)
    ensures t == 1.0 || t == 1.5
    ensures t == 1.5 <==> (Abs(c) > 10_000_000_000.0 || Abs(c) < 0.000_000_000_1)
  {
    var loosened := if BASE_TOLERANCE * 1.5 <= 2.0 then BASE_TOLERANCE * 1.5 else 2.0;
    if Abs(c) > 10_000_000_000.0 then loosened
    else if Abs(c) < 0.000_000_000_1 then loosened
    else BASE_TOLERANCE
  }

  /** `abs((u - c) / c) * 100`. */
  function RelativeError(u: real, c: real): real
    requires c != 0.0
  {
    Abs((u - c) / c) * 100.0
  }

  /** `is_correct(user_answer, correct_answer)`. */
  predicate IsCorrect(user: Answer, correct: Answer)
  {
    match (user, correct)
    case (Num(u), Num(c)) =>
      if u == 0.0 && c == 0.0 then true
      else if u == 0.0 || c == 0.0 then u == c
      else RelativeError(u, c) <= Tolerance(c)
    case _ => false
  }

  /** A missing or unconvertible answer on either side is never correct. */
  lemma IncorrectWithoutNumbers(user: Answer, correct: Answer)
    requires !user.Num? || !correct.Num?
    ensures !IsCorrect(user, correct)
  {
  }

  /** Against a zero correct answer only zero is correct, and zero is correct only against zero. */
  lemma ZeroCases(u: real, c: real)
    ensures c == 0.0 ==> (IsCorrect(Num(u), Num(c)) <==> u == 0.0)
    ensures u == 0.0 ==> (IsCorrect(Num(u), Num(c)) <==> c == 0.0)
  {
  }

  lemma MulDivAbs(d: real, c: real)
    requires c != 0.0
    ensures Abs(d / c) * Abs(c) == Abs(d)
  {
    assert (d / c) * c == d;
    if d / c < 0.0 {
      if c < 0.0 { assert Abs(d / c) * Abs(c) == (d / c) * c; }
      else { assert Abs(d / c) * Abs(c) == -((d / c) * c); }
    } else {
      if c < 0.0 { assert Abs(d / c) * Abs(c) == -((d / c) * c); }
      else { assert Abs(d / c) * Abs(c) == (d / c) * c; }
    }
  }

  lemma ScaleComparison(q: real, t: real, a: real, d: real)
    requires a > 0.0 && q * a == d
    ensures q * 100.0 <= t <==> d * 100.0 <= t * a
  {
    assert (q * 100.0) * a == d * 100.0;
    if q * 100.0 <= t {
      assert (t - q * 100.0) * a >= 0.0;
    } else {
      assert (q * 100.0 - t) * a > 0.0;
    }
  }

  /** For non-zero numbers the verdict is the division-free band
    * `|u - c| * 100 <= tolerance * |c|`, boundary included. */
  lemma CorrectIffWithinBand(u: real, c: real)
    requires u != 0.0 && c != 0.0
    ensures IsCorrect(Num(u), Num(c)) <==> Abs(u - c) * 100.0 <= Tolerance(c) * Abs(c)
  {
    var q := Abs((u - c) / c);
    var t := Tolerance(c);
    assert IsCorrect(Num(u), Num(c)) <==> q * 100.0 <= t;
    MulDivAbs(u - c, c);
    ScaleComparison(q, t, Abs(c), Abs(u - c));
  }

  /** Every number is a correct answer to itself. */
  lemma CorrectReflexive(x: real)
    ensures IsCorrect(Num(x), Num(x))
  {
    if x != 0.0 {
      CorrectIffWithinBand(x, x);
    }
  }

  /** Boundary cases: 101 against 100 is correct (exactly 1%),
    * 102 against 100 is not, and 1 against 0 is not. */
  lemma BoundaryExamples()
    ensures IsCorrect(Num(101.0), Num(100.0))
    ensures !IsCorrect(Num(102.0), Num(100.0))
    ensures !IsCorrect(Num(1.0), Num(0.0))
    ensures IsCorrect(Num(0.0), Num(0.0))
  {
    CorrectIffWithinBand(101.0, 100.0);
    CorrectIffWithinBand(102.0, 100.0);
  }

  /** Labels of `classify_error_type`. */
  datatype ErrorType =
    | Correct               // 正确
    | Unanswered            // 未作答
    | FormatError           // 格式错误
    | CalculationError      // 计算错误 (non-zero answer to a zero correct answer)
    | ConceptualError       // 概念错误 (relative error above 50%)
    | CalculationDeviation  // 计算误差 (relative error above 5%)
    | PrecisionOrUnit       // 精度或单位偏差

  /** `classify_error_type(user_answer, correct_answer, is_correct)`. */
  function ClassifyError(user: Answer, correct: Answer, isCorrect: bool): ErrorType
  {
    if isCorrect then Correct
    else if user.Missing? then Unanswered
    else if !user.Num? || !correct.Num? then FormatError
    else if correct.value == 0.0 then (if user.value != 0.0 then CalculationError else Correct)
    else
      var e := RelativeError(user.value, correct.value);
      if e > 50.0 then ConceptualError
      else if e > 5.0 then CalculationDeviation
      else PrecisionOrUnit
  }

  /** With the verdict of `is_correct` passed in, as the submit handler does, the label
    * is `Correct` exactly when the answer is correct. */
  lemma ClassifyAgreesWithVerdict(user: Answer, correct: Answer)
    ensures ClassifyError(user, correct, IsCorrect(user, correct)) == Correct <==> IsCorrect(user, correct)
  {
  }

  /** An incorrect numeric answer is labelled by the band its relative error falls in; the
    * mildest label still lies outside the grading tolerance. */
  lemma ClassifyBands(u: real, c: real)
    requires c != 0.0 && !IsCorrect(Num(u), Num(c))
    ensures var kind := ClassifyError(Num(u), Num(c), false);
      && (kind == ConceptualError <==> RelativeError(u, c) > 50.0)
      && (kind == CalculationDeviation <==> 5.0 < RelativeError(u, c) <= 50.0)
      && (kind == PrecisionOrUnit <==> RelativeError(u, c) <= 5.0)
      && (kind == PrecisionOrUnit ==> RelativeError(u, c) > Tolerance(c))
  {
    if u == 0.0 {
      assert RelativeError(u, c) == 100.0 by {
        assert (u - c) / c == -1.0;
      }
    }
  }

  /** The answer-time clamp of the submit handler: negative becomes 0, more than a day
    * becomes 3600 seconds, anything else is kept (the other branches only log). */
  function ClampTime(t: real): (r: real)
    ensures 0.0 <= r <= 86400.0
    ensures 0.0 <= t <= 86400.0 ==> r == t
    ensures t < 0.0 ==> r == 0.0
    ensures t > 86400.0 ==> r == 3600.0
  {
    if t < 0.0 then 0.0
    else if t > 86400.0 then 3600.0
    else t
  }

  /** Clamping twice is clamping once. */
  lemma ClampIdempotent(t: real)
    ensures ClampTime(ClampTime(t)) == ClampTime(t)
  {
  }

  /** The request key of answer `i` (0-based) out of `n`: `answer` for a single answer,
    * `answer1`, `answer2`, ... otherwise. */
  function AnswerKey(n: nat, i: nat): string
  {
    if n == 1 then "answer" else "answer" + Dec(i + 1)
  }

  /** Different answers of one submission are read from different keys. */
  lemma AnswerKeysDistinct(n: nat, i: nat, j: nat)
    requires i < n && j < n && i != j
    ensures AnswerKey(n, i) != AnswerKey(n, j)
  {
    if AnswerKey(n, i) == AnswerKey(n, j) {
      var p := "answer";
      assert (p + Dec(i + 1))[|p|..] == Dec(i + 1);
      assert (p + Dec(j + 1))[|p|..] == Dec(j + 1);
      DecInjective(i + 1, j + 1);
    }
  }

  /** `float(data.get(key, 0))` on the request's JSON fields: 0 for an absent key, the
    * number for a numeric field, None where `float` raises (a `ValueError` for text that
    * is not a number, a `TypeError` for a JSON null). */
  function ReadNumber(data: map<string, Answer>, key: string): Option<real>
  {
    if key !in data then Some(0.0)
    else match data[key]
      case Num(v) => Some(v)
      case _ => None
  }

  /** The loop that collects the user's answers from the request. A field that does not
    * convert raises, and the handler turns that into a failure reply before anything is
    * graded or recorded: the result is None exactly when some read field does not convert. */
  method CollectAnswers(data: map<string, Answer>, n: nat) returns (answers: Option<seq<real>>)
    ensures answers.None? <==> exists i :: 0 <= i < n && ReadNumber(data, AnswerKey(n, i)).None?
    ensures answers.Some? ==> |answers.value| == n
    ensures answers.Some? ==>
      forall i :: 0 <= i < n ==> ReadNumber(data, AnswerKey(n, i)) == Some(answers.value[i])
  {
    var read: seq<real> := [];
    var i := 0;
    while i < n
      invariant 0 <= i <= n && |read| == i
      invariant forall k :: 0 <= k < i ==> ReadNumber(data, AnswerKey(n, k)) == Some(read[k])
    {
      var key := if n == 1 then "answer" else "answer" + Dec(i + 1);
      var v := ReadNumber(data, key);
      if v.None? {
        assert ReadNumber(data, AnswerKey(n, i)).None?;
        return None;
      }
      read := read + [v.value];
      i := i + 1;
    }
    return Some(read);
  }

  /** The grading loop over `zip(user_answers, correct_answers)`: one verdict and one
    * label per pair, stopping at the shorter list, and `all_correct` over the verdicts. */
  method GradeAll(users: seq<real>, corrects: seq<real>)
    returns (verdicts: seq<bool>, labels: seq<ErrorType>, allCorrect: bool)
    ensures |verdicts| == |labels| == (if |users| <= |corrects| then |users| else |corrects|)
    ensures forall i :: 0 <= i < |verdicts| ==> verdicts[i] == IsCorrect(Num(users[i]), Num(corrects[i]))
    ensures forall i :: 0 <= i < |labels| ==>
      labels[i] == ClassifyError(Num(users[i]), Num(corrects[i]), verdicts[i])
    ensures allCorrect <==> forall i :: 0 <= i < |verdicts| ==> verdicts[i]
  {
    var n := if |users| <= |corrects| then |users| else |corrects|;
    verdicts, labels, allCorrect := [], [], true;
    var i := 0;
    while i < n
      invariant 0 <= i <= n && |verdicts| == |labels| == i
      invariant forall k :: 0 <= k < i ==> verdicts[k] == IsCorrect(Num(users[k]), Num(corrects[k]))
      invariant forall k :: 0 <= k < i ==>
        labels[k] == ClassifyError(Num(users[k]), Num(corrects[k]), verdicts[k])
      invariant allCorrect <==> forall k :: 0 <= k < i ==> verdicts[k]
    {
      var ok := IsCorrect(Num(users[i]), Num(corrects[i]));
      verdicts := verdicts + [ok];
      labels := labels + [ClassifyError(Num(users[i]), Num(corrects[i]), ok)];
      if !ok {
        allCorrect := false;
      }
      i := i + 1;
    }
  }

  /** `problem_id + 1 if problem_id < total_problems else None`. */
  function NextProblem(problemId: int, total: int): (r: Option<int>)
    ensures r.Some? <==> problemId < total
    ensures r.Some? ==> r.value == problemId + 1
    ensures 1 <= problemId ==> (r.Some? ==> 2 <= r.value <= total)
  {
    if problemId < total then Some(problemId + 1) else None
  }
}
