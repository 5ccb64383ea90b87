/**
 * Substitution of `__name__` placeholders in a template's problem text
 * (`format_problem_text`), which runs `re.sub(r'__(\w+)__', ...)`.
 *
 * The scan goes left to right. At each position the pattern tries "__", then the
 * longest run of word characters that is followed by "__" (the regex backtracks
 * from the greedy `\w+`, and `\w` contains `_` itself), then "__". A match whose
 * name is a key of the variable map becomes the value's string form; any other
 * match is copied verbatim; scanning resumes after the match. Where nothing
 * matches, one character is copied and the scan moves on.
 *
 * The word-character class and the value-to-string conversion (`str(float)`) are
 * parameters: `isWord` and `show`.
 */
module Placeholders {
  import opened Wrappers
  import opened Dict

  type VarValues = Dict<string, real>

  /** Length of the maximal run of word characters at the start of `s`. */
  function WordRun(s: string, isWord: char -> bool): (n: nat)
    ensures n <= |s|
    ensures forall i :: 0 <= i < n ==> isWord(s[i])
    ensures n == |s| || !isWord(s[n])
  {
    if s == [] || !isWord(s[0]) then 0 else 1 + WordRun(s[1..], isWord)
  }

  predicate SeparatorAt(s: string, j: nat)
  {
    j + 2 <= |s| && s[j] == '_' && s[j + 1] == '_'
  }

  /** The largest `j` in `[lo, hi]` at which "__" starts, if any. */
  function LastSeparator(s: string, lo: nat, hi: nat): (r: Option<nat>)
    requires hi + 2 <= |s|
    ensures r.Some? ==> lo <= r.value <= hi && SeparatorAt(s, r.value)
    ensures r.Some? ==> forall j :: r.value < j <= hi ==> !SeparatorAt(s, j)
    ensures r.None? ==> forall j :: lo <= j <= hi ==> !SeparatorAt(s, j)
    decreases hi
  {
    if hi < lo then None
    else if SeparatorAt(s, hi) then Some(hi)
    else if hi == 0 then None
    else LastSeparator(s, lo, hi - 1)
  }

  function Min(a: int, b: int): int { if a <= b then a else b }

  /** Where the pattern, tried at the start of `s`, ends a match (if it matches):
    * the match is `s[..e]` and the placeholder name is `s[2..e - 2]`. */
  function MatchAt(s: string, isWord: char -> bool): (r: Option<nat>)
    ensures r.Some? ==> 5 <= r.value <= |s| && s[0] == '_' && s[1] == '_'
    ensures r.Some? ==> SeparatorAt(s, r.value - 2)
    ensures r.Some? ==> forall i :: 2 <= i < r.value - 2 ==> isWord(s[i])
  {
    if |s| < 5 || s[0] != '_' || s[1] != '_' then None
    else
      var run := WordRun(s[2..], isWord);
      match LastSeparator(s, 3, Min(2 + run, |s| - 2))
      case None => None
      case Some(j) => Some(j + 2)
  }

  /** The text that replaces one match: the value's string form when the name is a key. */
  function Replacement(matched: string, name: string, vars: VarValues, show: real -> string): string
  {
    match Get(vars, name)
    case Some(v) => show(v)
    case None => matched
  }

  /** `format_problem_text(s, vars)`. */
  function Substitute(s: string, vars: VarValues, isWord: char -> bool, show: real -> string): string
    decreases |s|
  {
    if s == [] then []
    else match MatchAt(s, isWord)
      case Some(e) => Replacement(s[..e], s[2..e - 2], vars, show) + Substitute(s[e..], vars, isWord, show)
      case None => [s[0]] + Substitute(s[1..], vars, isWord, show)
  }

  /** With an empty variable map every match is copied verbatim, so the text is unchanged. */
  lemma {:induction false} SubstituteEmpty(s: string, isWord: char -> bool, show: real -> string)
    ensures Substitute(s, [], isWord, show) == s
    decreases |s|
  {
    if s != [] {
      match MatchAt(s, isWord)
      case Some(e) =>
        SubstituteEmpty(s[e..], isWord, show);
        assert s == s[..e] + s[e..];
      case None =>
        SubstituteEmpty(s[1..], isWord, show);
        assert s == [s[0]] + s[1..];
    }
  }

  /** A character other than `_` can never start a match: it is copied and the scan moves on. */
  lemma PlainCharacter(c: char, rest: string, vars: VarValues, isWord: char -> bool, show: real -> string)
    requires c != '_'
    ensures Substitute([c] + rest, vars, isWord, show) == [c] + Substitute(rest, vars, isWord, show)
  {
    assert ([c] + rest)[1..] == rest;
  }

  /** The word run after the opening "__" of a placeholder: the name alone, or the
    * name and the closing "__" when `_` is a word character. */
  lemma PlaceholderRun(name: string, rest: string, isWord: char -> bool)
    requires |name| > 0 && forall i :: 0 <= i < |name| ==> isWord(name[i])
    requires rest == [] || !isWord(rest[0])
    ensures WordRun(name + "__" + rest, isWord) == if isWord('_') then |name| + 2 else |name|
  {
    var t := name + "__" + rest;
    var n := |name|;
    var run := WordRun(t, isWord);
    assert forall i :: 0 <= i < n ==> t[i] == name[i];
    assert t[n] == '_' && t[n + 1] == '_';
    if isWord('_') {
      assert |t| == n + 2 || t[n + 2] == rest[0];
    }
  }

  /** A placeholder followed by a non-word character (or nothing) is one match that
    * ends right after its closing "__". */
  lemma PlaceholderMatch(name: string, rest: string, isWord: char -> bool)
    requires |name| > 0 && forall i :: 0 <= i < |name| ==> isWord(name[i])
    requires rest == [] || !isWord(rest[0])
    ensures MatchAt("__" + name + "__" + rest, isWord) == Some(|name| + 4)
  {
    var s := "__" + name + "__" + rest;
    var n := |name|;
    assert s[2..] == name + "__" + rest;
    PlaceholderRun(name, rest, isWord);
    var run := WordRun(s[2..], isWord);
    assert SeparatorAt(s, n + 2);
    if isWord('_') {
      // j == n + 3 would need s[n + 4] == '_', which is rest[0]
      assert !SeparatorAt(s, n + 3);
    }
    var hi := Min(2 + run, |s| - 2);
    assert LastSeparator(s, 3, hi) == Some(n + 2);
  }

  /** A placeholder `__name__` that ends the text or is followed by a non-word character
    * is matched with exactly `name`: it becomes `show(value)` when `name` is a key, and
    * stays as it is otherwise. */
  lemma Placeholder(name: string, rest: string, vars: VarValues, isWord: char -> bool, show: real -> string)
    requires |name| > 0 && forall i :: 0 <= i < |name| ==> isWord(name[i])
    requires rest == [] || !isWord(rest[0])
    ensures var s := "__" + name + "__" + rest;
      Substitute(s, vars, isWord, show) ==
        (match Get(vars, name)
         case Some(v) => show(v)
         case None => "__" + name + "__")
        + Substitute(rest, vars, isWord, show)
  {
    var s := "__" + name + "__" + rest;
    var n := |name|;
    PlaceholderMatch(name, rest, isWord);
    assert s[..n + 4] == "__" + name + "__";
    assert s[2..n + 2] == name;
    assert s[n + 4..] == rest;
  }
}
