/**
  The match-percentage parser: `re.search(r"(\d+)%", response)` followed by
  `int(match.group(1))`.

  The regular-expression engine tries start positions from left to right; at a
  start position `i` the greedy `\d+` takes the maximal run of digits and then
  needs a literal `%`. Backtracking to a shorter run can never help, because the
  character after a shorter run is again a digit. Only ASCII digits `'0'..'9'`
  are modelled.

  `int()` refuses a digit string longer than CPython's default
  `sys.int_max_str_digits` (4300 digits, leading zeros included) with a
  `ValueError`, which nothing in the caller catches.
 */
module Percentage {
  import opened Wrappers

  predicate IsDigit(c: char) {
    '0' <= c <= '9'
  }

  predicate AllDigits(t: string) {
    forall j :: 0 <= j < |t| ==> IsDigit(t[j])
  }

  function DigitValue(c: char): nat
    requires IsDigit(c)
  {
    (c as int) - ('0' as int)
  }

  function Pow10(n: nat): nat {
    if n == 0 then 1 else 10 * Pow10(n - 1)
  }

  /** The number a string of ASCII digits denotes, leading zeros allowed; `n` digits stay below `10^n`. */
  function DecimalValue(t: string): (r: nat)
    requires AllDigits(t)
    ensures r < Pow10(|t|)
  {
    if |t| == 0 then 0 else DecimalValue(t[..|t| - 1]) * 10 + DigitValue(t[|t| - 1])
  }

  /**
    `DecimalValue` reads the digits right to left; read left to right, the
    first digit carries weight `10^(|t|-1)`.
   */
  lemma {:induction false} DecimalValueLeftToRight(t: string)
    requires AllDigits(t) && |t| > 0
    ensures DecimalValue(t) == DigitValue(t[0]) * Pow10(|t| - 1) + DecimalValue(t[1..])
  {
    var n := |t|;
    if n == 1 {
      assert t[1..] == [];
      assert t[..0] == [];
    } else {
      var init, rest := t[..n - 1], t[1..];
      var d0, last, p := DigitValue(t[0]), DigitValue(t[n - 1]), Pow10(n - 2);
      DecimalValueLeftToRight(init);
      assert init[0] == t[0];
      assert init[1..] == rest[..n - 2];
      assert rest[n - 2] == t[n - 1];
      var x := DecimalValue(rest[..n - 2]);
      ShiftByTen(DecimalValue(t), DecimalValue(init), DecimalValue(rest), d0, p, x, last, Pow10(n - 1));
    }
  }

  /** Appending a digit multiplies the earlier digits' weights by ten. */
  lemma ShiftByTen(whole: int, init: int, rest: int, d0: int, p: int, x: int, last: int, p10: int)
    requires whole == init * 10 + last && init == d0 * p + x
    requires rest == x * 10 + last && p10 == 10 * p
    ensures whole == d0 * p10 + rest
  {
  }

  /** CPython's default `sys.int_max_str_digits`. */
  const INT_MAX_STR_DIGITS: nat := 4300

  /** Python's `int(t)` on ASCII digits: the value, or `None` for the `ValueError` past the digit limit. */
  function IntOf(t: string): (r: Option<nat>)
    requires AllDigits(t)
    ensures r.None? <==> |t| > INT_MAX_STR_DIGITS
    ensures r.Some? ==> r.value == DecimalValue(t)
  {
    if |t| > INT_MAX_STR_DIGITS then None else Some(DecimalValue(t))
  }

  /** What lines 149-152 produce: no match, the parsed percentage, or the `ValueError` raised by `int()`. */
  datatype PercentParse = NoMatch | Percent(value: nat) | IntError

  /** The pattern `(\d+)%` matches starting at `i`, with group 1 being `s[i..k]`. */
  predicate MatchAt(s: string, i: int, k: int) {
    0 <= i < k < |s| && AllDigits(s[i..k]) && s[k] == '%'
  }

  /** Some match of the pattern starts at position `i`. */
  ghost predicate MatchesAt(s: string, i: int) {
    exists k :: MatchAt(s, i, k)
  }

  /** The end of the maximal run of digits that starts at `j`. */
  function RunEnd(s: string, j: nat): (r: nat)
    requires j <= |s|
    ensures j <= r <= |s|
    ensures AllDigits(s[j..r])
    ensures r == |s| || !IsDigit(s[r])
    decreases |s| - j
  {
    if j < |s| && IsDigit(s[j]) then
      var r := RunEnd(s, j + 1);
      assert s[j..r] == [s[j]] + s[j + 1..r];
      r
    else
      j
  }

  /** A digit run is ended by exactly one position: the first non-digit after it. */
  lemma {:induction false} RunEndUnique(s: string, j: nat, k: nat)
    requires j <= k <= |s|
    requires AllDigits(s[j..k])
    requires k == |s| || !IsDigit(s[k])
    ensures RunEnd(s, j) == k
    decreases k - j
  {
    if j < k {
      assert s[j..k][0] == s[j];
      assert s[j + 1..k] == s[j..k][1..];
      RunEndUnique(s, j + 1, k);
    }
  }

  /**
    The leftmost match of the pattern among the start positions `from..|s|`,
    as the pair (start of group 1, index of the `%`).
   */
  function SearchFrom(s: string, from: nat): (r: Option<(nat, nat)>)
    requires from <= |s|
    ensures r.Some? ==> from <= r.value.0 && MatchAt(s, r.value.0, r.value.1)
    ensures r.Some? ==> forall i :: from <= i < r.value.0 ==> !MatchesAt(s, i)
    ensures r.None? <==> forall i :: from <= i < |s| ==> !MatchesAt(s, i)
    decreases |s| - from
  {
    if from == |s| then
      None
    else
      var e := RunEnd(s, from);
      if from < e < |s| && s[e] == '%' then
        assert MatchAt(s, from, e);
        assert MatchesAt(s, from);
        Some((from, e))
      else
        assert !MatchesAt(s, from) by {
          if k :| MatchAt(s, from, k) {
            RunEndUnique(s, from, k);
          }
        }
        SearchFrom(s, from + 1)
  }

  /** `re.search(r"(\d+)%", response)` followed, on a match, by `int(match.group(1))`. */
  function ExtractPercentage(response: string): (r: PercentParse)
    ensures r.NoMatch? <==> forall i :: 0 <= i < |response| ==> !MatchesAt(response, i)
    ensures r.Percent? ==>
              exists i, k :: MatchAt(response, i, k) && k - i <= INT_MAX_STR_DIGITS && r.value == DecimalValue(response[i..k])
    ensures r.IntError? ==> exists i, k :: MatchAt(response, i, k) && k - i > INT_MAX_STR_DIGITS
  {
    match SearchFrom(response, 0)
    case None => NoMatch
    case Some((i, k)) =>
      match IntOf(response[i..k])
      case None => IntError
      case Some(v) => Percent(v)
  }

  /** Position `k` holds a `%` with a digit right before it. */
  predicate PercentAfterDigit(s: string, k: int) {
    0 < k < |s| && s[k] == '%' && IsDigit(s[k - 1])
  }

  /** `k` is the first position holding a `%` with a digit right before it. */
  predicate FirstPercentAfterDigit(s: string, k: int) {
    PercentAfterDigit(s, k) && forall k' :: 0 <= k' < k ==> !PercentAfterDigit(s, k')
  }

  /** `s[j..k]` is the whole (maximal to the left) run of digits ending just before `k`. */
  predicate RunBefore(s: string, j: int, k: int) {
    0 <= j < k <= |s| && AllDigits(s[j..k]) && (j == 0 || !IsDigit(s[j - 1]))
  }

  /** The parser finds no match exactly when no `%` in the text is immediately preceded by a digit. */
  lemma NoneIffNoPercentAfterDigit(s: string)
    ensures ExtractPercentage(s).NoMatch? <==> forall k :: 0 <= k < |s| ==> !PercentAfterDigit(s, k)
  {
    if ExtractPercentage(s).NoMatch? {
      forall k | 0 <= k < |s|
        ensures !PercentAfterDigit(s, k)
      {
        if 0 < k {
          assert !MatchesAt(s, k - 1);
          assert !MatchAt(s, k - 1, k);
          assert s[k - 1..k] == [s[k - 1]];
        }
      }
    } else {
      var (i, k) := SearchFrom(s, 0).value;
      assert s[i..k][k - 1 - i] == s[k - 1];
      assert PercentAfterDigit(s, k);
    }
  }

  /**
    The parse is decided by the maximal digit run in front of the first `%`
    that has a digit in front of it: its decimal value, or the `ValueError`
    when the run is longer than the digit limit.
   */
  lemma PercentageOfFirstRun(s: string, j: nat, k: nat)
    requires FirstPercentAfterDigit(s, k)
    requires RunBefore(s, j, k)
    ensures ExtractPercentage(s) == if k - j > INT_MAX_STR_DIGITS then IntError else Percent(DecimalValue(s[j..k]))
  {
    forall i, k' | 0 <= i < j && i < k' < |s| && s[k'] == '%'
      ensures !AllDigits(s[i..k'])
    {
      if k' < k {
        assert !PercentAfterDigit(s, k');
        assert s[i..k'][k' - 1 - i] == s[k' - 1];
      } else if k' == k {
        assert s[i..k'][j - 1 - i] == s[j - 1];
      } else {
        assert s[i..k'][k - i] == s[k];
      }
    }
    assert forall i :: 0 <= i < j ==> !MatchesAt(s, i);
    assert MatchAt(s, j, k);
    SearchStartsAt(s, 0, j, k);
  }

  /** When no match starts before `j` and one starts at `j`, the search from `from <= j` reports it. */
  lemma {:induction false} SearchStartsAt(s: string, from: nat, j: nat, k: nat)
    requires from <= j
    requires MatchAt(s, j, k)
    requires forall i :: from <= i < j ==> !MatchesAt(s, i)
    ensures SearchFrom(s, from) == Some((j, k))
    decreases j - from
  {
    RunEndUnique(s, j, k);
    if from < j {
      assert !MatchesAt(s, from);
      assert !MatchAt(s, from, RunEnd(s, from));
      SearchStartsAt(s, from + 1, j, k);
    }
  }

  /** The match the parser reports is always the run in front of the first `%` preceded by a digit. */
  lemma MatchIsFirstRun(s: string)
    requires SearchFrom(s, 0).Some?
    ensures FirstPercentAfterDigit(s, SearchFrom(s, 0).value.1)
    ensures RunBefore(s, SearchFrom(s, 0).value.0, SearchFrom(s, 0).value.1)
  {
    var (i, k) := SearchFrom(s, 0).value;
    assert s[i..k][k - 1 - i] == s[k - 1];
    if i > 0 {
      assert !MatchesAt(s, i - 1);
      assert !MatchAt(s, i - 1, k);
      assert s[i - 1..k] == [s[i - 1]] + s[i..k];
    }
    forall k' | 0 <= k' < k
      ensures !PercentAfterDigit(s, k')
    {
      if 0 < k' <= i {
        assert !MatchesAt(s, k' - 1);
        assert !MatchAt(s, k' - 1, k');
        assert s[k' - 1..k'] == [s[k' - 1]];
      } else if i < k' {
        assert s[i..k][k' - i] == s[k'];
      }
    }
  }

  /** First match wins: once a text has a match, appending text never changes the parse. */
  lemma FirstMatchWins(a: string, b: string)
    requires !ExtractPercentage(a).NoMatch?
    ensures ExtractPercentage(a + b) == ExtractPercentage(a)
  {
    var (i, k) := SearchFrom(a, 0).value;
    MatchIsFirstRun(a);
    PercentageOfFirstRun(a, i, k);
    var s := a + b;
    assert s[..|a|] == a;
    assert s[i..k] == a[i..k];
    forall k' | 0 <= k' < k
      ensures !PercentAfterDigit(s, k')
    {
      assert !PercentAfterDigit(a, k');
    }
    PercentageOfFirstRun(s, i, k);
  }

  /**
    Leading zeros do not change the number, so `int("0" + t) == int(t)`, as
    long as the extra zero does not push the string past the digit limit; at
    exactly the limit the extra zero turns the value into a `ValueError`.
   */
  lemma LeadingZeroIgnored(t: string)
    requires AllDigits(t)
    ensures AllDigits("0" + t) && DecimalValue("0" + t) == DecimalValue(t)
    ensures |t| < INT_MAX_STR_DIGITS ==> IntOf("0" + t) == IntOf(t)
    ensures |t| == INT_MAX_STR_DIGITS ==> IntOf(t).Some? && IntOf("0" + t).None?
  {
    var z := "0" + t;
    assert z[1..] == t;
    assert forall j :: 0 < j < |z| ==> z[j] == t[j - 1];
    assert AllDigits(z);
    DecimalValueLeftToRight(z);
    assert DigitValue(z[0]) == 0;
  }

  /** `"85% match, 15% gap"` gives 85. */
  lemma ExampleFirstOfTwo()
    ensures ExtractPercentage("85% match, 15% gap") == Percent(85)
  {
    var s := "85% match, 15% gap";
    assert !PercentAfterDigit(s, 0) && !PercentAfterDigit(s, 1);
    assert s[0..2] == "85";
    assert "85"[..1] == "8" && "8"[..0] == "";
    PercentageOfFirstRun(s, 0, 2);
  }

  /** `"007%"` gives 7: leading zeros are ignored. */
  lemma ExampleLeadingZeros()
    ensures ExtractPercentage("007%") == Percent(7)
  {
    var s := "007%";
    assert !PercentAfterDigit(s, 0) && !PercentAfterDigit(s, 1) && !PercentAfterDigit(s, 2);
    assert s[0..3] == "007";
    PercentageOfFirstRun(s, 0, 3);
    assert "007" == "0" + "07" && "07" == "0" + "7";
    LeadingZeroIgnored("07");
    LeadingZeroIgnored("7");
    assert "7"[..0] == "";
    assert DecimalValue("7") == 7;
  }

  /** `"150%"` gives 150: no clamping to 0..100. */
  lemma ExampleNoClamping()
    ensures ExtractPercentage("150%") == Percent(150)
  {
    var s := "150%";
    assert !PercentAfterDigit(s, 0) && !PercentAfterDigit(s, 1) && !PercentAfterDigit(s, 2);
    assert s[0..3] == "150";
    assert "150"[..2] == "15" && "15"[..1] == "1" && "1"[..0] == "";
    PercentageOfFirstRun(s, 0, 3);
  }

  /** `"abc%"` gives no match: its `%` follows a letter. */
  lemma ExampleLetterBeforePercent()
    ensures ExtractPercentage("abc%") == NoMatch
  {
  }

  /** `"no match stated"` gives no match: it has no `%` at all. */
  lemma ExampleNoPercentSign()
    ensures ExtractPercentage("no match stated") == NoMatch
  {
  }

  /** A run of 4300 digits before the `%` still parses; a run of 4301 digits makes `int()` raise. */
  lemma ExampleDigitLimit()
    ensures ExtractPercentage(seq(INT_MAX_STR_DIGITS, j => '1') + "%").Percent?
    ensures ExtractPercentage(seq(INT_MAX_STR_DIGITS + 1, j => '1') + "%") == IntError
  {
    var ok := seq(INT_MAX_STR_DIGITS, j => '1') + "%";
    var tooLong := seq(INT_MAX_STR_DIGITS + 1, j => '1') + "%";
    assert ok[0..INT_MAX_STR_DIGITS] == seq(INT_MAX_STR_DIGITS, j => '1');
    assert tooLong[0..INT_MAX_STR_DIGITS + 1] == seq(INT_MAX_STR_DIGITS + 1, j => '1');
    PercentageOfFirstRun(ok, 0, INT_MAX_STR_DIGITS);
    PercentageOfFirstRun(tooLong, 0, INT_MAX_STR_DIGITS + 1);
  }

  /** `"Match: 90%"` gives 90. */
  lemma ExampleStatedMatch()
    ensures ExtractPercentage("Match: 90%") == Percent(90)
  {
    var s := "Match: 90%";
    assert s[5] == ':' && s[6] == ' ' && s[7] == '9' && s[8] == '0' && s[9] == '%';
    assert forall k' :: 0 <= k' < 9 ==> s[k'] != '%';
    assert s[7..9] == "90";
    assert "90"[..1] == "9" && "9"[..0] == "";
    PercentageOfFirstRun(s, 7, 9);
  }

  /** A stubbed ATS reply naming a 90% match followed by keywords. */
  const STUB_REPLY: string := "Match: 90% ... keywords: Python, AWS"

  /** The stubbed ATS reply gives 90. */
  lemma ExampleStubbedReply()
    ensures ExtractPercentage(STUB_REPLY) == Percent(90)
  {
    var s := STUB_REPLY;
    assert s[5] == ':' && s[6] == ' ' && s[7] == '9' && s[8] == '0' && s[9] == '%';
    assert forall k' :: 0 <= k' < 9 ==> s[k'] != '%';
    assert s[7..9] == "90";
    assert "90"[..1] == "9" && "9"[..0] == "";
    PercentageOfFirstRun(s, 7, 9);
  }
}
