/** Positions on a circle of `n` cells: Python's `%` by a positive modulus
    (which Dafny's Euclidean `%` matches) and the forward distance between
    two cells. */
module Circular {

  lemma {:induction false} MulAtLeast(k: int, n: int)
    requires k >= 1 && n > 0
    ensures k * n >= n
    decreases k
  {
    if k > 1 {
      MulAtLeast(k - 1, n);
      assert k * n == (k - 1) * n + n;
    }
  }

  /** `x / n` and `x % n` are the only `q` and `r` with `x == q * n + r`. */
  lemma ModUnique(x: int, n: int, q: int, r: int)
    requires n > 0 && 0 <= r < n && x == q * n + r
    ensures x % n == r && x / n == q
  {
    var q' := x / n;
    assert x == q' * n + x % n;
    if q' > q {
      MulAtLeast(q' - q, n);
      assert false;
    } else if q' < q {
      MulAtLeast(q - q', n);
      assert false;
    }
  }

  /** The distance, walking forward round a circle of `n` cells, from `index` to `p`. */
  function Offset(p: int, index: int, n: int): (d: int)
    requires n > 0
    ensures 0 <= d < n
  {
    (p - index) % n
  }

  /** Walking `d < n` cells forward from `index` lands `d` cells from `index`. */
  lemma OffsetOfShift(index: int, d: int, n: int)
    requires n > 0 && 0 <= d < n
    ensures Offset((index + d) % n, index, n) == d
  {
    var q := (index + d) / n;
    assert (index + d) % n - index == d + (-q) * n;
    ModUnique((index + d) % n - index, n, -q, d);
  }

  /** Every cell is reached by walking its offset forward from `index`. */
  lemma ShiftOfOffset(p: int, index: int, n: int)
    requires n > 0 && 0 <= p < n
    ensures (index + Offset(p, index, n)) % n == p
  {
    var q := (p - index) / n;
    assert p - index == q * n + (p - index) % n;
    assert index + (p - index) % n == p + (-q) * n;
    ModUnique(index + (p - index) % n, n, -q, p);
  }

  /** Stepping the origin one cell forward shortens every distance by one,
      except the distance to the old origin, which becomes `n - 1`. */
  lemma OffsetStep(p: int, index: int, n: int)
    requires n > 0
    ensures Offset(p, (index + 1) % n, n) == if Offset(p, index, n) == 0 then n - 1 else Offset(p, index, n) - 1
  {
    var d := Offset(p, index, n);
    var q := (p - index) / n;
    var q' := (index + 1) / n;
    assert p - index == q * n + d;
    assert (index + 1) % n == index + 1 - q' * n;
    assert p - (index + 1) % n == (q + q') * n + d - 1;
    if d == 0 {
      assert p - (index + 1) % n == (q + q' - 1) * n + (n - 1);
      ModUnique(p - (index + 1) % n, n, q + q' - 1, n - 1);
    } else {
      ModUnique(p - (index + 1) % n, n, q + q', d - 1);
    }
  }
}
