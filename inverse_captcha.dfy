/** Inverse captcha (2017 day 1): the sum of the digits of a circular list
    that equal the digit `step` places further on. */
module InverseCaptcha {
  import opened Wrappers
  import opened Text
  import Circular

  // ---------------------------------------------------------------------------
  // get_next_index

  /** `get_next_index(length, current, step)`: `step` places on from `current`,
      wrapping with `%` once the end is reached.  A length of 0 there divides
      by zero; a negative index is handed back as it is. */
  function NextIndex(length: nat, current: int, step: int): (r: Result<int>)
    ensures r.Err? <==> length == 0 && current + step >= 0
    ensures r.Err? ==> r.error == ZeroDivisionError
    ensures length > 0 && current + step >= 0 ==>
      r.Ok? && 0 <= r.value < length && r.value == (current + step) % length
    ensures current + step < 0 ==> r == Ok(current + step)
  {
    var next := current + step;
    if next >= length then
      if length == 0 then Err(ZeroDivisionError) else Ok(next % length)
    else
      assert length > 0 && next >= 0 ==> next % length == next by {
        if length > 0 && next >= 0 {
          Circular.ModUnique(next, length, 0, next);
        }
      }
      Ok(next)
  }

  // ---------------------------------------------------------------------------
  // cal_match_dight_sum

  /** `int(c)` for a single character: its value when it is a digit, and a
      ValueError for anything else (ASCII digits only). */
  function CharInt(c: char): (r: Result<int>)
    ensures r.Ok? <==> IsDigit(c)
    ensures r.Ok? ==> r.value == DigitValue(c)
    ensures r.Err? ==> r.error == ValueError
  {
    SingleCharInt(c);
    match ParseInt([c])
    case Some(v) => Ok(v)
    case None => Err(ValueError)
  }

  lemma SingleCharInt(c: char)
    ensures ParseInt([c]) == if IsDigit(c) then Some(DigitValue(c)) else None
  {
    var s := [c];
    assert StripLeft(s) == if IsSpace(c) then [] else s by {
      if IsSpace(c) {
        assert s[1..] == [];
      }
    }
    assert Strip(s) == if IsSpace(c) then [] else s;
    if IsDigit(c) {
      assert DigitsValue(s) == DigitsValue(s[..0]) * 10 + DigitValue(c);
    }
  }

  /** What position `i` adds to the sum: its digit when it equals the one
      `step` places on, else 0.  Looking that one up can raise IndexError
      (a negative index below `-len`) and `int` can raise ValueError. */
  function Term(data: string, step: int, i: nat): (r: Result<int>)
    requires |data| >= 2 && i < |data|
  {
    var j := NextIndex(|data|, i, step).value;
    match PyIndex(data, j)
    case None => Err(IndexError)
    case Some(next) => if data[i] == next then CharInt(data[i]) else Ok(0)
  }

  /** The sum over the first `k` positions, stopping at the first exception. */
  function MatchSum(data: string, step: int, k: nat): Result<int>
    requires |data| >= 2 && k <= |data|
  {
    if k == 0 then Ok(0)
    else
      match MatchSum(data, step, k - 1)
      case Err(e) => Err(e)
      case Ok(s) =>
        match Term(data, step, k - 1)
        case Err(e) => Err(e)
        case Ok(t) => Ok(s + t)
  }

  /** `cal_match_dight_sum(data, step)`; a list of at most one digit sums to 0. */
  function CaptchaSum(data: string, step: int): Result<int> {
    if |data| <= 1 then Ok(0) else MatchSum(data, step, |data|)
  }

  /** An exception, once raised, is the outcome of the whole sum. */
  lemma {:induction false} ErrorSticks(data: string, step: int, k: nat, m: nat)
    requires |data| >= 2 && k <= m <= |data| && MatchSum(data, step, k).Err?
    ensures MatchSum(data, step, m) == MatchSum(data, step, k)
    decreases m - k
  {
    if k < m {
      ErrorSticks(data, step, k, m - 1);
    }
  }

  /** The loop of `cal_match_dight_sum`, written out. */
  method CalMatchDigitSum(data: string, step: int) returns (r: Result<int>)
    ensures r == CaptchaSum(data, step)
    ensures |data| <= 1 ==> r == Ok(0)
  {
    if |data| <= 1 {
      return Ok(0);
    }
    var sum := 0;
    for index := 0 to |data|
      invariant MatchSum(data, step, index) == Ok(sum)
    {
      var j := NextIndex(|data|, index, step).value;
      var next: char;
      if 0 <= j < |data| {
        next := data[j];
      } else if -|data| <= j < 0 {
        next := data[|data| + j];
      } else {
        ErrorSticks(data, step, index + 1, |data|);
        return Err(IndexError);
      }
      if data[index] == next {
        var v := CharInt(data[index]);
        if v.Err? {
          ErrorSticks(data, step, index + 1, |data|);
          return Err(v.error);
        }
        sum := sum + v.value;
      }
    }
    return Ok(sum);
  }

  // ---------------------------------------------------------------------------
  // What the sum means

  /** The puzzle's reading of the sum over the first `k` digits: digit `i`
      counts when it equals digit `(i + step) mod len` round the circle. */
  function Matched(data: string, step: int, k: nat): int
    requires AllDigits(data) && |data| > 0 && k <= |data|
  {
    if k == 0 then 0
    else
      var i := k - 1;
      Matched(data, step, i) + (if data[i] == data[(i + step) % |data|] then DigitValue(data[i]) else 0)
  }

  /** For a step no further back than one trip round the circle, each
      position adds what the circular reading says. */
  lemma TermIsCircular(data: string, step: int, i: nat)
    requires AllDigits(data) && |data| >= 2 && i < |data| && step >= -|data|
    ensures Term(data, step, i) ==
      Ok(if data[i] == data[(i + step) % |data|] then DigitValue(data[i]) else 0)
  {
    var n := |data|;
    var j := NextIndex(n, i, step).value;
    if i + step < 0 {
      Circular.ModUnique(i + step, n, -1, i + step + n);
      assert PyIndex(data, j) == Some(data[(i + step) % n]);
    } else {
      assert PyIndex(data, j) == Some(data[(i + step) % n]);
    }
  }

  lemma {:induction false} MatchSumIsMatched(data: string, step: int, k: nat)
    requires AllDigits(data) && |data| >= 2 && k <= |data| && step >= -|data|
    ensures MatchSum(data, step, k) == Ok(Matched(data, step, k))
  {
    if k > 0 {
      MatchSumIsMatched(data, step, k - 1);
      TermIsCircular(data, step, k - 1);
    }
  }

  /** On a list of digits, the code computes the circular match sum, for
      every step from `-len` upwards. */
  lemma CaptchaSumIsMatched(data: string, step: int)
    requires AllDigits(data) && |data| >= 2 && step >= -|data|
    ensures CaptchaSum(data, step) == Ok(Matched(data, step, |data|))
  {
    MatchSumIsMatched(data, step, |data|);
  }

  /** A step further back than `-len` makes the very first look-up fail. */
  lemma StepTooFarBack(data: string, step: int)
    requires |data| >= 2 && step < -|data|
    ensures CaptchaSum(data, step) == Err(IndexError)
  {
    assert Term(data, step, 0) == Err(IndexError);
    assert MatchSum(data, step, 1) == Err(IndexError);
    ErrorSticks(data, step, 1, |data|);
  }

  /** Every sum the code returns lies between 0 and nine per digit. */
  lemma {:induction false} MatchSumBounds(data: string, step: int, k: nat)
    requires |data| >= 2 && k <= |data| && MatchSum(data, step, k).Ok?
    ensures 0 <= MatchSum(data, step, k).value <= 9 * k
  {
    if k > 0 {
      MatchSumBounds(data, step, k - 1);
    }
  }

  lemma CaptchaSumBounds(data: string, step: int)
    requires CaptchaSum(data, step).Ok?
    ensures 0 <= CaptchaSum(data, step).value <= 9 * |data|
  {
    if |data| >= 2 {
      MatchSumBounds(data, step, |data|);
    }
  }

  // ---------------------------------------------------------------------------
  // The worked examples

  /** "1122" sums to 3 and "91212129" to 9 with step 1; "1212" with a step of
      half its length sums to 6. */
  lemma Example1122(data: string)
    requires data == "1122"
    ensures CaptchaSum(data, 1) == Ok(3)
  {
    CaptchaSumIsMatched(data, 1);
    assert Matched(data, 1, 1) == 1;
    assert Matched(data, 1, 2) == 1;
    assert Matched(data, 1, 3) == 3;
    assert Matched(data, 1, 4) == 3;
  }

  lemma Example91212129(data: string)
    requires data == "91212129"
    ensures CaptchaSum(data, 1) == Ok(9)
  {
    CaptchaSumIsMatched(data, 1);
    assert Matched(data, 1, 1) == 0;
    assert Matched(data, 1, 2) == 0;
    assert Matched(data, 1, 3) == 0;
    assert Matched(data, 1, 4) == 0;
    assert Matched(data, 1, 5) == 0;
    assert Matched(data, 1, 6) == 0;
    assert Matched(data, 1, 7) == 0;
    assert Matched(data, 1, 8) == 9;
  }

  lemma Example1212(data: string)
    requires data == "1212"
    ensures CaptchaSum(data, |data| / 2) == Ok(6)
  {
    CaptchaSumIsMatched(data, 2);
    assert Matched(data, 2, 1) == 1;
    assert Matched(data, 2, 2) == 3;
    assert Matched(data, 2, 3) == 4;
    assert Matched(data, 2, 4) == 6;
  }
}
