/**
 * Decimal digit runs: the `re.search(r'\d+', s)` search that the resolver
 * uses to pull identifiers out of URLs, and the `%d` rendering of the chapter
 * index in the text output, with its parse-back partner.
 */
module Digits {
  import opened Wrappers

  predicate IsDigit(c: char) {
    '0' <= c <= '9'
  }

  predicate HasDigit(s: string) {
    exists k :: 0 <= k < |s| && IsDigit(s[k])
  }

  predicate AllDigits(s: string) {
    forall k :: 0 <= k < |s| ==> IsDigit(s[k])
  }

  /** s[start..end] is a non-empty run of digits that cannot be extended to the right. */
  predicate IsRunFrom(s: string, start: nat, end: nat) {
    && start < end <= |s|
    && (forall k :: start <= k < end ==> IsDigit(s[k]))
    && (end == |s| || !IsDigit(s[end]))
  }

  /** s[start..end] is the leftmost maximal run of digits in s: what `\d+` matches first. */
  predicate IsLeftmostMaximalRun(s: string, start: nat, end: nat) {
    IsRunFrom(s, start, end) && forall k :: 0 <= k < start ==> !IsDigit(s[k])
  }

  /** The span of a successful match, as Python's match.start() and match.end(). */
  datatype Match = Match(start: nat, end: nat)

  /** The end of the greedy digit run that begins at or after j (j itself if s[j] is no digit). */
  function RunEnd(s: string, j: nat): (e: nat)
    requires j <= |s|
    ensures j <= e <= |s|
    ensures forall k :: j <= k < e ==> IsDigit(s[k])
    ensures e == |s| || !IsDigit(s[e])
    decreases |s| - j
  {
    if j < |s| && IsDigit(s[j]) then RunEnd(s, j + 1) else j
  }

  /** The scan of `re.search` from position i: the first position holding a digit, then the greedy run. */
  function SearchFrom(s: string, i: nat): (m: Option<Match>)
    requires i <= |s|
    ensures m.None? ==> forall k :: i <= k < |s| ==> !IsDigit(s[k])
    ensures m.Some? ==>
      && i <= m.value.start
      && IsRunFrom(s, m.value.start, m.value.end)
      && forall k :: i <= k < m.value.start ==> !IsDigit(s[k])
    decreases |s| - i
  {
    if i == |s| then None
    else if IsDigit(s[i]) then Some(Match(i, RunEnd(s, i)))
    else SearchFrom(s, i + 1)
  }

  /** `re.search(r'\d+', s)`: no match exactly when s has no digit, otherwise the leftmost maximal run. */
  function SearchDigits(s: string): (m: Option<Match>)
    ensures m.None? <==> !HasDigit(s)
    ensures m.Some? ==> IsLeftmostMaximalRun(s, m.value.start, m.value.end)
  {
    var m := SearchFrom(s, 0);
    assert m.Some? ==> IsDigit(s[m.value.start]);
    m
  }

  /** The matched text, `re.search(r'\d+', s).group()`, when there is a match. */
  function FirstDigitRun(s: string): (r: Option<string>)
    ensures r.None? <==> !HasDigit(s)
    ensures r.Some? ==> |r.value| > 0 && AllDigits(r.value)
    ensures r.Some? ==>
      var m := SearchDigits(s).value;
      IsLeftmostMaximalRun(s, m.start, m.end) && r.value == s[m.start..m.end]
  {
    match SearchDigits(s)
    case None => None
    case Some(m) => Some(s[m.start..m.end])
  }

  /** The leftmost maximal run is unique, so any span having that property is the one the search returns. */
  lemma LeftmostMaximalRunIsMatch(s: string, start: nat, end: nat)
    requires IsLeftmostMaximalRun(s, start, end)
    ensures SearchDigits(s) == Some(Match(start, end))
    ensures FirstDigitRun(s) == Some(s[start..end])
  {
    assert IsDigit(s[start]);
    var m := SearchDigits(s).value;
    assert IsDigit(s[m.start]);
    assert m.start == start;
  }

  /** The character of a single decimal digit. */
  function DigitChar(d: nat): (c: char)
    requires d < 10
    ensures IsDigit(c)
  {
    ('0' as int + d) as char
  }

  /** The value of a single decimal digit character. */
  function DigitValue(c: char): (d: nat)
    requires IsDigit(c)
    ensures d < 10 && DigitChar(d) == c
  {
    c as int - '0' as int
  }

  /** Python's `"%d" % n` for a non-negative n: the shortest decimal numeral of n. */
  function DecimalString(n: nat): (r: string)
    ensures |r| > 0 && AllDigits(r)
    ensures r[0] == '0' ==> n == 0
    decreases n
  {
    if n < 10 then [DigitChar(n)] else DecimalString(n / 10) + [DigitChar(n % 10)]
  }

  /** The value of a numeral, most significant digit first. */
  function ParseDecimal(s: string): (n: nat)
    requires AllDigits(s)
    decreases |s|
  {
    if s == [] then 0 else 10 * ParseDecimal(s[..|s| - 1]) + DigitValue(s[|s| - 1])
  }

  /** Reading a rendered number back gives the number: the rendering loses nothing. */
  lemma {:induction false} ParseDecimalString(n: nat)
    ensures ParseDecimal(DecimalString(n)) == n
  {
    var s := DecimalString(n);
    if n >= 10 {
      ParseDecimalString(n / 10);
      assert s[..|s| - 1] == DecimalString(n / 10);
    }
  }

  /** Rendering the value of a numeral without a leading zero gives the numeral back. */
  lemma {:induction false} DecimalStringParse(s: string)
    requires |s| > 0 && AllDigits(s)
    requires s[0] == '0' ==> |s| == 1
    ensures DecimalString(ParseDecimal(s)) == s
  {
    var init := s[..|s| - 1];
    var d := DigitValue(s[|s| - 1]);
    if |s| == 1 {
      assert ParseDecimal(s) == 10 * ParseDecimal([]) + d;
    } else {
      DecimalStringParse(init);
      PositiveWithoutLeadingZero(init);
      var n := ParseDecimal(s);
      assert n == 10 * ParseDecimal(init) + d;
      assert n / 10 == ParseDecimal(init) && n % 10 == d;
      assert s == init + [s[|s| - 1]];
    }
  }

  /** A numeral that does not start with '0' denotes a positive number. */
  lemma {:induction false} PositiveWithoutLeadingZero(s: string)
    requires |s| > 0 && AllDigits(s) && s[0] != '0'
    ensures ParseDecimal(s) > 0
  {
    if |s| > 1 {
      PositiveWithoutLeadingZero(s[..|s| - 1]);
    }
  }
}
