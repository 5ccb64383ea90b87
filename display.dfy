/**
 * Display helpers: the numbering of templates shown to students
 * (`get_problem_display_info`, `build_display_to_actual_map`, `get_display_number`,
 * `get_actual_id`), the truncation of problem text before it is stored, and the
 * superscript exponent written by `format_scientific`.
 *
 * The template list is the id column of `SELECT ... ORDER BY id`, passed in as `ids`.
 * Templates are numbered from 1 in that order, so a deleted template leaves no gap.
 */
module Display {
  import opened Wrappers
  import opened Text
  import opened Dict

  predicate Distinct(ids: seq<int>)
  {
    forall i, j :: 0 <= i < j < |ids| ==> ids[i] != ids[j]
  }

  /** `get_problem_display_info`: each id mapped to its 1-based position, built by
    * dict assignment in row order (a repeated id would keep its later position). */
  function DisplayMapping(ids: seq<int>): (m: Dict<int, nat>)
    ensures DistinctKeys(m)
  {
    if ids == [] then [] else Put<int, nat>(DisplayMapping(ids[..|ids| - 1]), ids[|ids| - 1], |ids|)
  }

  /** The last id gets the last number; every other id keeps what the prefix gave it. */
  lemma MappingStep(ids: seq<int>, id: int)
    requires ids != []
    ensures Get(DisplayMapping(ids), id) ==
      if id == ids[|ids| - 1] then Some(|ids|) else Get(DisplayMapping(ids[..|ids| - 1]), id)
  {
  }

  /** Exactly the listed ids are keys, and every number lies in 1 .. |ids|. */
  lemma {:induction false} MappingKeys(ids: seq<int>, id: int)
    ensures Get(DisplayMapping(ids), id).Some? <==> id in ids
    ensures Get(DisplayMapping(ids), id).Some? ==> 1 <= Get(DisplayMapping(ids), id).value <= |ids|
  {
    if ids != [] {
      var prefix := ids[..|ids| - 1];
      var last := ids[|ids| - 1];
      assert id in ids <==> id in prefix || id == last by {
        assert ids == prefix + [last];
      }
      var g := Get(DisplayMapping(ids), id);
      MappingStep(ids, id);
      if id == last {
        assert g == Some(|ids|);
      } else {
        var before := Get(DisplayMapping(prefix), id);
        MappingKeys(prefix, id);
        assert g == before;
        assert before.Some? ==> before.value <= |prefix| < |ids|;
      }
    }
  }

  /** The mapping as a list: position i holds the i-th id and the number i + 1. */
  function Enumerate(ids: seq<int>): (d: Dict<int, nat>)
  {
    seq(|ids|, i requires 0 <= i < |ids| => (ids[i], i + 1))
  }

  lemma EnumerateSnoc(ids: seq<int>)
    requires ids != []
    ensures Enumerate(ids) == Enumerate(ids[..|ids| - 1]) + [(ids[|ids| - 1], |ids|)]
  {
  }

  lemma DistinctSnoc(ids: seq<int>)
    requires ids != [] && Distinct(ids)
    ensures Distinct(ids[..|ids| - 1]) && ids[|ids| - 1] !in ids[..|ids| - 1]
  {
  }

  /** With distinct ids (the primary key), the mapping is the enumeration in row order. */
  lemma {:induction false} MappingIsEnumeration(ids: seq<int>)
    requires Distinct(ids)
    ensures DisplayMapping(ids) == Enumerate(ids)
  {
    if ids == [] {
      assert Enumerate(ids) == [];
    } else {
      var prefix := ids[..|ids| - 1];
      var last := ids[|ids| - 1];
      DistinctSnoc(ids);
      MappingIsEnumeration(prefix);
      MappingKeys(prefix, last);
      PutNew<int, nat>(DisplayMapping(prefix), last, |ids|);
      EnumerateSnoc(ids);
    }
  }

  /** `get_display_number`: the position of the id, or the id itself when it is not
    * in the list. */
  function DisplayNumber(ids: seq<int>, id: int): (r: int)
    ensures id !in ids ==> r == id
    ensures id in ids ==> 1 <= r <= |ids|
  {
    MappingKeys(ids, id);
    match Get(DisplayMapping(ids), id)
    case Some(n) => n
    case None => id
  }

  /** With distinct ids, the display number of the i-th id is i + 1. */
  lemma DisplayNumberIsPosition(ids: seq<int>, i: nat)
    requires Distinct(ids) && i < |ids|
    ensures DisplayNumber(ids, ids[i]) == i + 1
  {
    MappingIsEnumeration(ids);
    GetOfEntry(Enumerate(ids), i);
  }

  /** The key of the first entry, in dict order, whose number is `n`. */
  function FirstWithNumber(d: Dict<int, nat>, n: int): (r: Option<int>)
    ensures r.None? <==> forall i :: 0 <= i < |d| ==> d[i].1 != n
    ensures r.Some? ==> (r.value, n) in d
  {
    if d == [] then None
    else if d[0].1 == n then Some(d[0].0)
    else
      var r := FirstWithNumber(d[1..], n);
      assert r.Some? ==> (r.value, n) in d[1..];
      r
  }

  /** `get_actual_id`: the id shown under number `n`, None when no template has it. */
  function ActualId(ids: seq<int>, n: int): Option<int>
  {
    FirstWithNumber(DisplayMapping(ids), n)
  }

  /** No template is shown under a number outside 1 .. |ids|. */
  lemma ActualIdOutOfRange(ids: seq<int>, n: int)
    requires n < 1 || n > |ids|
    ensures ActualId(ids, n).None?
  {
    var m := DisplayMapping(ids);
    forall i | 0 <= i < |m|
      ensures m[i].1 != n
    {
      var key := m[i].0;
      GetOfEntry(m, i);
      MappingKeys(ids, key);
      assert 1 <= m[i].1 <= |ids|;
    }
    assert FirstWithNumber(m, n).None?;
  }

  /** With distinct ids, number n (1-based) is the n-th id. */
  lemma ActualIdOfPosition(ids: seq<int>, n: int)
    requires Distinct(ids) && 1 <= n <= |ids|
    ensures ActualId(ids, n) == Some(ids[n - 1])
  {
    MappingIsEnumeration(ids);
    assert Enumerate(ids)[n - 1].1 == n;
  }

  /** Display number and actual id are inverse to each other on the listed templates. */
  lemma DisplayRoundTrip(ids: seq<int>, i: nat)
    requires Distinct(ids) && i < |ids|
    ensures ActualId(ids, DisplayNumber(ids, ids[i])) == Some(ids[i])
    ensures ActualId(ids, i + 1) == Some(ids[i]) && DisplayNumber(ids, ids[i]) == i + 1
  {
    DisplayNumberIsPosition(ids, i);
    ActualIdOfPosition(ids, i + 1);
  }

  /** Inverts a mapping by dict assignment in its order: number -> id. */
  function Invert(d: Dict<int, nat>): (r: Dict<nat, int>)
    ensures DistinctKeys(r)
  {
    if d == [] then [] else Put(Invert(d[..|d| - 1]), d[|d| - 1].1, d[|d| - 1].0)
  }

  /** `build_display_to_actual_map`. */
  function DisplayToActual(ids: seq<int>): Dict<nat, int>
  {
    Invert(DisplayMapping(ids))
  }

  /** Inverting one more entry: its number now leads to its id; other numbers are
    * answered as before. */
  lemma InvertSnoc(d: Dict<int, nat>, n: nat)
    requires d != []
    ensures Get(Invert(d), n) ==
      if n == d[|d| - 1].1 then Some(d[|d| - 1].0) else Get(Invert(d[..|d| - 1]), n)
  {
  }

  lemma {:induction false} InvertEnumeration(ids: seq<int>, n: nat)
    ensures Get(Invert(Enumerate(ids)), n) == if 1 <= n <= |ids| then Some(ids[n - 1]) else None
  {
    if ids == [] {
      assert Enumerate(ids) == [];
    } else {
      var prefix := ids[..|ids| - 1];
      var d := Enumerate(ids);
      EnumerateSnoc(ids);
      assert d[..|d| - 1] == Enumerate(prefix);
      assert d[|d| - 1] == (ids[|ids| - 1], |ids|);
      InvertSnoc(d, n);
      InvertEnumeration(prefix, n);
      assert Invert(d[..|d| - 1]) == Invert(Enumerate(prefix));
      assert Get(Invert(d), n) == if n == |ids| then Some(ids[|ids| - 1]) else Get(Invert(Enumerate(prefix)), n);
      assert 1 <= n <= |prefix| ==> prefix[n - 1] == ids[n - 1];
    }
  }

  /** The number-to-id map answers exactly what `get_actual_id` answers. */
  lemma DisplayToActualAgrees(ids: seq<int>, n: nat)
    requires Distinct(ids)
    ensures Get(DisplayToActual(ids), n) == ActualId(ids, n)
  {
    MappingIsEnumeration(ids);
    InvertEnumeration(ids, n);
    if 1 <= n <= |ids| {
      ActualIdOfPosition(ids, n);
    } else {
      ActualIdOutOfRange(ids, n);
    }
  }

  const TRUNCATE_AT: nat := 1000
  const ELLIPSIS: string := "..."

  /** Problem text as stored with an answer record: at most 1000 characters of it,
    * followed by "..." when something was cut. */
  function Truncate(text: string): (r: string)
    ensures |r| <= TRUNCATE_AT + |ELLIPSIS|
    ensures |text| <= TRUNCATE_AT ==> r == text
    ensures |text| > TRUNCATE_AT ==>
      |r| == TRUNCATE_AT + |ELLIPSIS| && r[..TRUNCATE_AT] == text[..TRUNCATE_AT] && r[TRUNCATE_AT..] == ELLIPSIS
  {
    if |text| > TRUNCATE_AT then text[..TRUNCATE_AT] + ELLIPSIS else text
  }

  /** Truncating twice is truncating once. */
  lemma TruncateIdempotent(text: string)
    ensures Truncate(Truncate(text)) == Truncate(text)
  {
    if |text| > TRUNCATE_AT {
      var r := Truncate(text);
      assert r[..TRUNCATE_AT] == text[..TRUNCATE_AT];
    }
  }

  const SUPERSCRIPT_MINUS: char := '\U{207B}'

  /** The superscript form of digit `d`: the table `superscript_digits`. */
  function SuperscriptDigit(d: nat): char
    requires d < 10
  {
    match d
    case 0 => '\U{2070}'
    case 1 => '\U{B9}'
    case 2 => '\U{B2}'
    case 3 => '\U{B3}'
    case 4 => '\U{2074}'
    case 5 => '\U{2075}'
    case 6 => '\U{2076}'
    case 7 => '\U{2077}'
    case 8 => '\U{2078}'
    case _ => '\U{2079}'
  }

  /** `superscript_digits.get(digit, digit)`. */
  function SuperscriptChar(c: char): (r: char)
  {
    if IsDigit(c) then SuperscriptDigit(DigitValue(c)) else c
  }

  function SuperscriptDigits(s: string): (r: string)
    ensures |r| == |s|
    ensures forall i :: 0 <= i < |s| ==> r[i] == SuperscriptChar(s[i])
  {
    seq(|s|, i requires 0 <= i < |s| => SuperscriptChar(s[i]))
  }

  /** The exponent part of `format_scientific`: `str(exponent)` with a leading '-'
    * written as a superscript minus and every digit as a superscript digit. */
  function SuperscriptExponent(e: int): (r: string)
    ensures |r| > 0
    ensures r[0] == SUPERSCRIPT_MINUS <==> e < 0
  {
    var s := IntToString(e);
    if s[0] == '-' then [SUPERSCRIPT_MINUS] + SuperscriptDigits(s[1..]) else SuperscriptDigits(s)
  }

  /** The digit a superscript digit stands for. */
  function FromSuperscript(c: char): (r: Option<nat>)
    ensures r.Some? ==> r.value < 10 && SuperscriptDigit(r.value) == c
  {
    if c == '\U{2070}' then Some(0)
    else if c == '\U{B9}' then Some(1)
    else if c == '\U{B2}' then Some(2)
    else if c == '\U{B3}' then Some(3)
    else if c == '\U{2074}' then Some(4)
    else if c == '\U{2075}' then Some(5)
    else if c == '\U{2076}' then Some(6)
    else if c == '\U{2077}' then Some(7)
    else if c == '\U{2078}' then Some(8)
    else if c == '\U{2079}' then Some(9)
    else None
  }

  /** Reads a run of superscript digits back as a number. */
  function ParseSuperscriptDigits(s: string): (r: Option<nat>)
  {
    if s == [] then Some(0)
    else
      var hi := ParseSuperscriptDigits(s[..|s| - 1]);
      var d := FromSuperscript(s[|s| - 1]);
      if hi.Some? && d.Some? then Some(hi.value * 10 + d.value) else None
  }

  /** Reads a superscript exponent back. */
  function ParseSuperscript(r: string): Option<int>
  {
    if r == [] then None
    else if r[0] == SUPERSCRIPT_MINUS then
      match ParseSuperscriptDigits(r[1..])
      case Some(n) => Some(0 - n as int)
      case None => None
    else ParseSuperscriptDigits(r)
  }

  lemma FromSuperscriptOfDigit(c: char)
    requires IsDigit(c)
    ensures FromSuperscript(SuperscriptChar(c)) == Some(DigitValue(c))
  {
  }

  lemma SuperscriptSnoc(s: string)
    requires s != []
    ensures SuperscriptDigits(s) == SuperscriptDigits(s[..|s| - 1]) + [SuperscriptChar(s[|s| - 1])]
  {
  }

  lemma ParseSuperscriptSnoc(u: string, c: char, n: nat, d: nat)
    requires ParseSuperscriptDigits(u) == Some(n) && FromSuperscript(c) == Some(d)
    ensures ParseSuperscriptDigits(u + [c]) == Some(n * 10 + d)
  {
    var t := u + [c];
    assert t[..|t| - 1] == u;
    assert t[|t| - 1] == c;
  }

  lemma {:induction false} ParseSuperscriptDigitsOf(s: string)
    requires AllDigits(s)
    ensures ParseSuperscriptDigits(SuperscriptDigits(s)) == Some(ParseDec(s))
  {
    if s != [] {
      var prefix := s[..|s| - 1];
      var last := s[|s| - 1];
      SuperscriptSnoc(s);
      ParseSuperscriptDigitsOf(prefix);
      FromSuperscriptOfDigit(last);
      ParseSuperscriptSnoc(SuperscriptDigits(prefix), SuperscriptChar(last), ParseDec(prefix), DigitValue(last));
    }
  }

  /** The superscript exponent can be read back: distinct exponents are written
    * differently. */
  lemma SuperscriptRoundTrip(e: int)
    ensures ParseSuperscript(SuperscriptExponent(e)) == Some(e)
  {
    var n: nat := if e < 0 then -e else e;
    var s := Dec(n);
    ParseDecOfDec(n);
    ParseSuperscriptDigitsOf(s);
    if e < 0 {
      assert IntToString(e)[1..] == s;
    } else {
      assert FromSuperscript(SuperscriptDigits(s)[0]).Some?;
    }
  }
}
