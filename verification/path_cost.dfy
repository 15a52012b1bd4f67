/** The cost of a path: the sum of the digit values of its characters. */
module PathCost {

  /** The value of a character read as a decimal digit: its code less the code of '0'. */
  function DigitValue(ch: char): int {
    ch as int - '0' as int
  }

  predicate IsDigit(ch: char) {
    '0' <= ch <= '9'
  }

  predicate AllDigits(s: string) {
    forall i :: 0 <= i < |s| ==> IsDigit(s[i])
  }

  /** The sum of DigitValue over the characters of s. */
  function Cost(s: string): int {
    if |s| == 0 then 0 else DigitValue(s[0]) + Cost(s[1..])
  }

  /** Cost is additive over concatenation. */
  lemma {:induction false} CostAppend(a: string, b: string)
    ensures Cost(a + b) == Cost(a) + Cost(b)
  {
    if |a| > 0 {
      assert (a + b)[1..] == a[1..] + b;
      CostAppend(a[1..], b);
    } else {
      assert a + b == b;
    }
  }

  /** The examples mazesolver.c documents for path_cost. */
  lemma CostExamples()
    ensures Cost("") == 0
    ensures Cost("2") == 2
    ensures Cost("871") == 16
  {
    assert "871"[1..] == "71";
    assert "71"[1..] == "1";
  }

  /** A path of digits costs between 0 and 9 per character. */
  lemma {:induction false} CostOfDigits(s: string)
    requires AllDigits(s)
    ensures 0 <= Cost(s) <= 9 * |s|
  {
    if |s| > 0 {
      CostOfDigits(s[1..]);
    }
  }

  /**
   The cost loop of mazesolver.c's path_cost: it walks the string up to its
   terminating NUL and adds each character's digit value to a running total.
   */
  method ComputePathCost(s: string) returns (cost: int)
    ensures cost == Cost(s)
    ensures AllDigits(s) ==> 0 <= cost <= 9 * |s|
  {
    cost := 0;
    var i := 0;
    while i < |s|
      invariant 0 <= i <= |s|
      invariant cost == Cost(s[..i])
    {
      CostAppend(s[..i], [s[i]]);
      assert s[..i + 1] == s[..i] + [s[i]];
      cost := cost + DigitValue(s[i]);
      i := i + 1;
    }
    assert s[..i] == s;
    if AllDigits(s) {
      CostOfDigits(s);
    }
  }
}
