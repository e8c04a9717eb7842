/** Corruption checksum (2017 day 2): a spreadsheet of integer rows, summed
    row by row either as the spread (largest minus smallest value) or as the
    quotients of the values that divide one another. */
module CorruptionChecksum {
  import opened Wrappers
  import Circular

  // ---------------------------------------------------------------------------
  // Adding up steps that may raise

  /** `a` and then `b`: the first exception wins, otherwise the sum. */
  function Then(a: Result<int>, b: Result<int>): (r: Result<int>)
    ensures a.Ok? && b.Ok? ==> r == Ok(a.value + b.value)
    ensures a.Err? ==> r == a
    ensures a.Ok? && b.Err? ==> r == b
  {
    if a.Err? then a else if b.Err? then b else Ok(a.value + b.value)
  }

  /** The steps `f(0)`, ..., `f(n - 1)` added up in order. */
  function Total(f: nat -> Result<int>, n: nat): Result<int> {
    if n == 0 then Ok(0) else Then(Total(f, n - 1), f(n - 1))
  }

  /** The first exception is the outcome of every longer sum. */
  lemma {:induction false} TotalSticks(f: nat -> Result<int>, k: nat, n: nat)
    requires k <= n && Total(f, k).Err?
    ensures Total(f, n) == Total(f, k)
    decreases n - k
  {
    if k < n {
      TotalSticks(f, k, n - 1);
    }
  }

  // ---------------------------------------------------------------------------
  // calculate_checksum_by_min_max

  /** Python's `min(row)`. */
  function Min(row: seq<int>): (m: int)
    requires |row| > 0
    ensures m in row && forall x :: x in row ==> m <= x
  {
    if |row| == 1 then row[0]
    else
      var rest := Min(row[1..]);
      assert forall x :: x in row ==> x == row[0] || x in row[1..];
      if row[0] <= rest then row[0] else rest
  }

  /** Python's `max(row)`. */
  function Max(row: seq<int>): (m: int)
    requires |row| > 0
    ensures m in row && forall x :: x in row ==> x <= m
  {
    if |row| == 1 then row[0]
    else
      var rest := Max(row[1..]);
      assert forall x :: x in row ==> x == row[0] || x in row[1..];
      if row[0] >= rest then row[0] else rest
  }

  /** What one row adds: `max(row) - min(row)`, a ValueError for an empty row. */
  function Spread(row: seq<int>): Result<int> {
    if |row| == 0 then Err(ValueError) else Ok(Max(row) - Min(row))
  }

  /** Row `i`'s spread, for `i` within the spreadsheet. */
  function SpreadStep(data: seq<seq<int>>): nat -> Result<int> {
    (i: nat) => if i < |data| then Spread(data[i]) else Ok(0)
  }

  /** The spread checksum of the first `n` rows. */
  function SpreadSum(data: seq<seq<int>>, n: nat): Result<int> {
    Total(SpreadStep(data), n)
  }

  /** `calculate_checksum_by_min_max(data)`. */
  method ChecksumByMinMax(data: seq<seq<int>>) returns (r: Result<int>)
    ensures r == SpreadSum(data, |data|)
  {
    var checksum := 0;
    for n := 0 to |data|
      invariant SpreadSum(data, n) == Ok(checksum)
    {
      var line := data[n];
      if |line| == 0 {
        TotalSticks(SpreadStep(data), n + 1, |data|);
        return Err(ValueError);
      }
      var minValue := Min(line);
      var maxValue := Max(line);
      checksum := checksum + (maxValue - minValue);
    }
    return Ok(checksum);
  }

  /** A row's spread is never negative, and it is 0 exactly when all values
      of the row are equal. */
  lemma SpreadZero(row: seq<int>)
    requires |row| > 0
    ensures Spread(row).value >= 0
    ensures Spread(row).value == 0 <==> forall i, j :: 0 <= i < |row| && 0 <= j < |row| ==> row[i] == row[j]
  {
    var lo, hi := Min(row), Max(row);
    if lo == hi {
      forall i, j | 0 <= i < |row| && 0 <= j < |row|
        ensures row[i] == row[j]
      {
        assert row[i] in row && row[j] in row;
      }
    }
  }

  /** The checksum fails exactly when some row is empty, and is otherwise
      never negative. */
  lemma {:induction false} SpreadSumOutcome(data: seq<seq<int>>, n: nat)
    requires n <= |data|
    ensures SpreadSum(data, n).Err? <==> exists i :: 0 <= i < n && |data[i]| == 0
    ensures SpreadSum(data, n).Err? ==> SpreadSum(data, n).error == ValueError
    ensures SpreadSum(data, n).Ok? ==> SpreadSum(data, n).value >= 0
  {
    if n > 0 {
      SpreadSumOutcome(data, n - 1);
      if |data[n - 1]| > 0 {
        SpreadZero(data[n - 1]);
      }
    }
  }

  // ---------------------------------------------------------------------------
  // calculate_checksum_by_divisible

  /** What the pair of `value` and an earlier `t` adds: `value / t` when
      `value > t` and `t` divides it, else `t / value` when `value` divides
      `t`, else 0.  A zero divisor raises ZeroDivisionError.  (Python's `%`
      for a nonzero divisor is 0 exactly when Dafny's is, and an exact
      quotient is the same in both.) */
  function PairTerm(value: int, t: int): Result<int> {
    if value > t && t == 0 then Err(ZeroDivisionError)
    else if value > t && value % t == 0 then Ok(value / t)
    else if value == 0 then Err(ZeroDivisionError)
    else if t % value == 0 then Ok(t / value)
    else Ok(0)
  }

  /** The pair of `value` with `ts[i]`. */
  function PairStep(value: int, ts: seq<int>): nat -> Result<int> {
    (i: nat) => if i < |ts| then PairTerm(value, ts[i]) else Ok(0)
  }

  /** The pairs of `value` with the first `k` entries of `ts`. */
  function PairsWith(value: int, ts: seq<int>, k: nat): Result<int> {
    Total(PairStep(value, ts), k)
  }

  /** The pairs of value `j` of a row with the values before it. */
  function RowStep(row: seq<int>): nat -> Result<int> {
    (j: nat) => if j < |row| then PairsWith(row[j], row, j) else Ok(0)
  }

  /** The pairs among the first `j` values of a row. */
  function RowPairs(row: seq<int>, j: nat): Result<int> {
    Total(RowStep(row), j)
  }

  /** Row `n`'s pairs. */
  function DivisibleStep(data: seq<seq<int>>): nat -> Result<int> {
    (n: nat) => if n < |data| then RowPairs(data[n], |data[n]|) else Ok(0)
  }

  /** The divisible checksum of the first `n` rows. */
  function Divisible(data: seq<seq<int>>, n: nat): Result<int> {
    Total(DivisibleStep(data), n)
  }

  lemma ThenAssoc(a: Result<int>, b: Result<int>, c: Result<int>)
    ensures Then(Then(a, b), c) == Then(a, Then(b, c))
  {
  }

  /** `calculate_checksum_by_divisible(data)`: one running sum over every row,
      every value and every value before it in its row. */
  method ChecksumByDivisible(data: seq<seq<int>>) returns (r: Result<int>)
    ensures r == Divisible(data, |data|)
  {
    var checkSum := 0;
    for n := 0 to |data|
      invariant Divisible(data, n) == Ok(checkSum)
    {
      var line := data[n];
      var checkValues: seq<int> := [];
      for j := 0 to |line|
        invariant checkValues == line[..j]
        invariant Then(Divisible(data, n), RowPairs(line, j)) == Ok(checkSum)
      {
        var value := line[j];
        ghost var before := checkSum;
        var k := 0;
        while k < |checkValues|
          invariant k <= j && checkValues == line[..j]
          invariant Then(Ok(before), PairsWith(value, line, k)) == Ok(checkSum)
        {
          var t := checkValues[k];
          var term := PairTerm(value, t);
          if term.Err? {
            RaisedInRow(data, n, j, k, term.error);
            return Err(term.error);
          }
          checkSum := checkSum + term.value;
          k := k + 1;
        }
        ThenAssoc(Divisible(data, n), RowPairs(line, j), PairsWith(value, line, j));
        checkValues := checkValues + [value];
      }
    }
    return Ok(checkSum);
  }

  /** A pair that raises, after rows and pairs that did not, is the outcome of
      the whole checksum. */
  lemma RaisedInRow(data: seq<seq<int>>, n: nat, j: nat, k: nat, error: Error)
    requires n < |data| && k < j < |data[n]|
    requires Divisible(data, n).Ok? && RowPairs(data[n], j).Ok? && PairsWith(data[n][j], data[n], k).Ok?
    requires PairTerm(data[n][j], data[n][k]) == Err(error)
    ensures Divisible(data, |data|) == Err(error)
  {
    PairsRaise(data[n][j], data[n], k, j, error);
    RowRaise(data[n], j, error);
    SheetRaise(data, n, error);
  }

  lemma PairsRaise(value: int, ts: seq<int>, k: nat, j: nat, error: Error)
    requires k < j <= |ts| && PairsWith(value, ts, k).Ok? && PairTerm(value, ts[k]) == Err(error)
    ensures PairsWith(value, ts, j) == Err(error)
  {
    var pairs := PairStep(value, ts);
    assert pairs(k) == Err(error);
    TotalAfter(pairs, k, error);
    TotalSticks(pairs, k + 1, j);
  }

  lemma RowRaise(line: seq<int>, j: nat, error: Error)
    requires j < |line| && RowPairs(line, j).Ok? && PairsWith(line[j], line, j) == Err(error)
    ensures RowPairs(line, |line|) == Err(error)
  {
    var rows := RowStep(line);
    assert rows(j) == Err(error);
    TotalAfter(rows, j, error);
    TotalSticks(rows, j + 1, |line|);
  }

  lemma SheetRaise(data: seq<seq<int>>, n: nat, error: Error)
    requires n < |data| && Divisible(data, n).Ok? && RowPairs(data[n], |data[n]|) == Err(error)
    ensures Divisible(data, |data|) == Err(error)
  {
    var sheet := DivisibleStep(data);
    assert sheet(n) == Err(error);
    TotalAfter(sheet, n, error);
    TotalSticks(sheet, n + 1, |data|);
  }

  /** A step that raises after steps that did not ends the sum with its exception. */
  lemma TotalAfter(f: nat -> Result<int>, k: nat, error: Error)
    requires Total(f, k).Ok? && f(k) == Err(error)
    ensures Total(f, k + 1) == Err(error)
  {
  }
  // ---------------------------------------------------------------------------
  // What the divisible checksum means for positive values

  /** For positive values: the larger divided by the smaller when that is
      exact, else 0. */
  function Quotient(x: int, y: int): int
    requires x > 0 && y > 0
  {
    var hi := if x >= y then x else y;
    var lo := if x >= y then y else x;
    if hi % lo == 0 then hi / lo else 0
  }

  /** One of two positive values divides the other. */
  predicate Divides(x: int, y: int)
    requires x > 0 && y > 0
  {
    Quotient(x, y) != 0
  }

  predicate AllPositive(row: seq<int>) {
    forall i :: 0 <= i < |row| ==> row[i] > 0
  }

  /** Between positive values a pair never raises, adds the larger divided
      by the smaller when that is exact, whichever comes first, and equal
      values add 1. */
  lemma PairTermPositive(value: int, t: int)
    requires value > 0 && t > 0
    ensures PairTerm(value, t) == Ok(Quotient(value, t))
    ensures Quotient(value, t) == Quotient(t, value)
    ensures value == t ==> Quotient(value, t) == 1
    ensures Divides(value, t) <==> (if value >= t then value % t == 0 else t % value == 0)
  {
    if value > t {
      Circular.ModUnique(t, value, 0, t);
    }
    if value == t {
      Circular.ModUnique(t, t, 1, 0);
    }
    if value >= t && value % t == 0 {
      DivisorQuotientPositive(value, t);
    }
    if t > value && t % value == 0 {
      DivisorQuotientPositive(t, value);
    }
  }

  lemma DivisorQuotientPositive(hi: int, lo: int)
    requires hi >= lo > 0 && hi % lo == 0
    ensures hi / lo >= 1
  {
  }

  /** The pair `(a, b)`, `a < b`, is the only one whose values divide. */
  predicate OnlyPair(row: seq<int>, a: nat, b: nat)
    requires AllPositive(row)
  {
    a < b < |row| && Divides(row[a], row[b]) &&
    forall i, j :: 0 <= i < j < |row| && !(i == a && j == b) ==> !Divides(row[i], row[j])
  }

  /** Steps that add nothing except step `b`, which adds `q`, add up to `q`
      once `b` is among them. */
  lemma {:induction false} TotalSingle(f: nat -> Result<int>, b: nat, q: int, m: nat)
    requires forall i: nat :: i < m ==> f(i) == Ok(if i == b then q else 0)
    ensures Total(f, m) == Ok(if b < m then q else 0)
  {
    if m > 0 {
      TotalSingle(f, b, q, m - 1);
    }
  }

  lemma PairsOnlyPair(row: seq<int>, a: nat, b: nat, j: nat)
    requires AllPositive(row) && OnlyPair(row, a, b) && j < |row|
    ensures PairsWith(row[j], row, j) == Ok(if j == b then Quotient(row[b], row[a]) else 0)
  {
    var f := PairStep(row[j], row);
    var q := Quotient(row[b], row[a]);
    forall i: nat | i < j
      ensures f(i) == Ok(if i == (if j == b then a else j) then q else 0)
    {
      PairTermPositive(row[j], row[i]);
      PairTermPositive(row[i], row[j]);
    }
    TotalSingle(f, if j == b then a else j, q, j);
  }

  lemma RowOnlyPair(row: seq<int>, a: nat, b: nat)
    requires AllPositive(row) && OnlyPair(row, a, b)
    ensures RowPairs(row, |row|) == Ok(Quotient(row[b], row[a]))
  {
    var f := RowStep(row);
    var q := Quotient(row[b], row[a]);
    forall j: nat | j < |row|
      ensures f(j) == Ok(if j == b then q else 0)
    {
      PairsOnlyPair(row, a, b, j);
    }
    TotalSingle(f, b, q, |row|);
  }

  /** A row of positive values with exactly one dividing pair adds that
      pair's quotient to the divisible checksum. */
  lemma OnlyPairQuotient(row: seq<int>, a: nat, b: nat)
    requires AllPositive(row) && OnlyPair(row, a, b)
    ensures RowPairs(row, |row|) == Ok(Quotient(row[a], row[b]))
    ensures Quotient(row[a], row[b]) >= 1
  {
    RowOnlyPair(row, a, b);
    PairTermPositive(row[b], row[a]);
    var hi := if row[a] >= row[b] then row[a] else row[b];
    var lo := if row[a] >= row[b] then row[b] else row[a];
    DivisorQuotientPositive(hi, lo);
  }

  /** Steps that never raise add up without raising. */
  lemma {:induction false} TotalOk(f: nat -> Result<int>, m: nat)
    requires forall i: nat :: i < m ==> f(i).Ok?
    ensures Total(f, m).Ok?
  {
    if m > 0 {
      TotalOk(f, m - 1);
    }
  }

  /** A spreadsheet of positive values never raises in the divisible checksum. */
  lemma PositiveNeverRaises(data: seq<seq<int>>)
    requires forall n :: 0 <= n < |data| ==> AllPositive(data[n])
    ensures Divisible(data, |data|).Ok?
  {
    forall n: nat | n < |data|
      ensures DivisibleStep(data)(n).Ok?
    {
      var row := data[n];
      forall j: nat | j < |row|
        ensures RowStep(row)(j).Ok?
      {
        forall i: nat | i < j
          ensures PairStep(row[j], row)(i).Ok?
        {
          PairTermPositive(row[j], row[i]);
        }
        TotalOk(PairStep(row[j], row), j);
      }
      TotalOk(RowStep(row), |row|);
    }
    TotalOk(DivisibleStep(data), |data|);
  }
}
