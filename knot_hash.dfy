/** Knot hash (2017 day 10): a list of 256 marks is twisted by reversing
    circular windows of it, with a current position and a skip size that
    carry over from one length to the next and from one round to the next;
    the twisted list is then reduced either to the product of its first two
    marks or to a 32-digit hexadecimal string. */
module KnotHash {
  import opened Wrappers
  import opened Text
  import opened Circular

  // ---------------------------------------------------------------------------
  // reverse

  /** The number of swaps `reverse` makes, `int(length / 2)`: the float
      quotient is truncated toward zero, so a negative length makes none. */
  function HalfCount(length: int): (h: nat)
    ensures length >= 0 ==> h == length / 2
    ensures length < 2 ==> h == 0
  {
    if length >= 0 then length / 2 else 0
  }

  /** `list[i], list[j] = list[j], list[i]`. */
  function SwapAt(s: seq<int>, i: nat, j: nat): (r: seq<int>)
    requires i < |s| && j < |s|
    ensures |r| == |s|
    ensures r[i] == s[j] && r[j] == s[i]
    ensures forall p :: 0 <= p < |s| && p != i && p != j ==> r[p] == s[p]
  {
    seq(|s|, p requires 0 <= p < |s| => if p == j then s[i] else if p == i then s[j] else s[p])
  }

  /** Exchanging two cells keeps the multiset of marks. */
  lemma SwapAtPermutes(s: seq<int>, i: nat, j: nat)
    requires i < |s| && j < |s|
    ensures multiset(SwapAt(s, i, j)) == multiset(s)
  {
    var t := s[i := s[j]];
    assert SwapAt(s, i, j) == t[j := s[i]];
    assert multiset(t) == multiset(s) - multiset{s[i]} + multiset{s[j]};
    assert multiset(t[j := s[i]]) == multiset(t) - multiset{t[j]} + multiset{s[i]};
  }

  /** The list after the first `k` swaps of `reverse(s, index, length)`: swap
      number `lth` exchanges the cells `lth` forward from `index` and
      `length - lth - 1` forward from `index`, both taken round the circle. */
  function Swaps(s: seq<int>, index: int, length: int, k: nat): (r: seq<int>)
    requires |s| > 0
    ensures |r| == |s|
  {
    if k == 0 then s
    else
      var n := |s|;
      SwapAt(Swaps(s, index, length, k - 1), (index + k - 1) % n, (index + length - (k - 1) - 1) % n)
  }

  /** Swap number `k` exchanges the cells `i` and `j`. */
  lemma SwapsUnfold(s: seq<int>, index: int, length: int, k: nat, i: nat, j: nat)
    requires |s| > 0 && k > 0
    requires i == (index + k - 1) % |s| && j == (index + length - (k - 1) - 1) % |s|
    ensures Swaps(s, index, length, k) == SwapAt(Swaps(s, index, length, k - 1), i, j)
  {
  }

  /** `reverse` only exchanges cells: the list keeps its multiset of marks. */
  lemma {:induction false} SwapsPermute(s: seq<int>, index: int, length: int, k: nat)
    requires |s| > 0
    ensures multiset(Swaps(s, index, length, k)) == multiset(s)
  {
    if k > 0 {
      SwapsPermute(s, index, length, k - 1);
      SwapsPermuteStep(s, index, length, k);
    } else {
      SwapsNone(s, index, length, k);
    }
  }

  lemma SwapsNone(s: seq<int>, index: int, length: int, k: nat)
    requires |s| > 0 && k == 0
    ensures Swaps(s, index, length, k) == s
  {
  }

  lemma SwapsPermuteStep(s: seq<int>, index: int, length: int, k: nat)
    requires |s| > 0 && k > 0
    requires multiset(Swaps(s, index, length, k - 1)) == multiset(s)
    ensures multiset(Swaps(s, index, length, k)) == multiset(s)
  {
    var n := |s|;
    var i, j := (index + k - 1) % n, (index + length - (k - 1) - 1) % n;
    SwapsUnfold(s, index, length, k, i, j);
    SwapAtPermutes(Swaps(s, index, length, k - 1), i, j);
  }

  /** After `k` swaps, the next one exchanges the cells `i` and `j`. */
  lemma SwapsNext(s: seq<int>, index: int, length: int, k: nat, i: nat, j: nat)
    requires |s| > 0
    requires i == (index + k) % |s| && j == (index + length - k - 1) % |s|
    ensures Swaps(s, index, length, k + 1) == SwapAt(Swaps(s, index, length, k), i, j)
  {
    assert index + (k + 1) - 1 == index + k;
    assert index + length - ((k + 1) - 1) - 1 == index + length - k - 1;
    SwapsUnfold(s, index, length, k + 1, i, j);
  }

  /** The circular window of `length` cells starting at `index`, reversed,
      with every cell outside the window left alone. */
  function ReversedWindow(s: seq<int>, index: int, length: int): (r: seq<int>)
    requires |s| > 0 && 0 <= length <= |s|
    ensures |r| == |s|
  {
    seq(|s|, p requires 0 <= p < |s| =>
      var d := Offset(p, index, |s|);
      if d < length then s[(index + length - 1 - d) % |s|] else s[p])
  }

  method Reverse(a: array<int>, index: int, length: int) returns (ok: bool)
    modifies a
    ensures ok <==> a.Length > 0 || HalfCount(length) == 0
    ensures !ok ==> a[..] == old(a[..])
    ensures ok && a.Length > 0 ==> a[..] == Swaps(old(a[..]), index, length, HalfCount(length))
    ensures multiset(a[..]) == multiset(old(a[..]))
    ensures a.Length > 0 && 0 <= length <= a.Length ==> a[..] == ReversedWindow(old(a[..]), index, length)
  {
    var n := a.Length;
    var half := HalfCount(length);
    if n == 0 {
      // `% list_len` with an empty list raises ZeroDivisionError on the first swap.
      return half == 0;
    }
    ghost var s0 := a[..];
    SwapLoop(a, index, length, half);
    SwapsPermute(s0, index, length, half);
    if 0 <= length <= n {
      SwapsReverse(s0, index, length);
    }
    return true;
  }

  /** The loop of `reverse`: `half` swaps on a non-empty list. */
  method SwapLoop(a: array<int>, index: int, length: int, half: nat)
    requires a.Length > 0
    modifies a
    ensures a[..] == Swaps(old(a[..]), index, length, half)
  {
    var n := a.Length;
    ghost var s0 := a[..];
    for lth := 0 to half
      invariant a[..] == Swaps(s0, index, length, lth)
    {
      var c := (index + lth) % n;
      var t := (index + length - lth - 1) % n;
      ghost var prev := a[..];
      a[c], a[t] := a[t], a[c];
      assert a[..] == prev[c := prev[t]][t := prev[c]];
      SwapsNext(s0, index, length, lth, c, t);
    }
  }

  /** What cell `p` holds after `k` swaps: the first `k` and the last `k`
      cells of the window are reversed, the rest are untouched. */
  function AfterSwaps(s: seq<int>, index: int, length: int, k: nat, p: nat): int
    requires |s| > 0 && p < |s|
  {
    var d := Offset(p, index, |s|);
    if d < k || length - k <= d < length then s[(index + length - 1 - d) % |s|] else s[p]
  }

  /** Cell `p` after `k` swaps, with its offset `d` and mirror cell `q`. */
  lemma AfterAt(s: seq<int>, index: int, length: int, k: nat, p: nat, d: int, q: int)
    requires |s| > 0 && p < |s|
    requires d == Offset(p, index, |s|) && q == (index + length - 1 - d) % |s|
    ensures AfterSwaps(s, index, length, k, p) == if d < k || length - k <= d < length then s[q] else s[p]
  {
  }

  lemma {:induction false} SwapsPartial(s: seq<int>, index: int, length: int, k: nat)
    requires |s| > 0 && 0 <= length <= |s| && k <= length / 2
    ensures forall p: nat :: p < |s| ==> Swaps(s, index, length, k)[p] == AfterSwaps(s, index, length, k, p)
  {
    var n := |s|;
    if k == 0 {
      forall p: nat | p < n
        ensures Swaps(s, index, length, k)[p] == AfterSwaps(s, index, length, k, p)
      {
        var d := Offset(p, index, n);
        AfterAt(s, index, length, 0, p, d, (index + length - 1 - d) % n);
      }
    } else {
      SwapsPartial(s, index, length, k - 1);
      var prev := Swaps(s, index, length, k - 1);
      var c := (index + k - 1) % n;
      var t := (index + length - (k - 1) - 1) % n;
      SwapsUnfold(s, index, length, k, c, t);
      forall p: nat | p < n
        ensures SwapAt(prev, c, t)[p] == AfterSwaps(s, index, length, k, p)
      {
        PartialAt(s, index, length, k, p, prev, c, t);
      }
    }
  }

  /** Swap number `k` at one cell `p`. */
  lemma PartialAt(s: seq<int>, index: int, length: int, k: nat, p: nat, prev: seq<int>, c: nat, t: nat)
    requires |s| > 0 && 0 <= length <= |s| && 0 < k <= length / 2 && p < |s| && |prev| == |s|
    requires c == (index + k - 1) % |s| && t == (index + length - (k - 1) - 1) % |s|
    requires prev[p] == AfterSwaps(s, index, length, k - 1, p)
    requires prev[c] == AfterSwaps(s, index, length, k - 1, c)
    requires prev[t] == AfterSwaps(s, index, length, k - 1, t)
    ensures SwapAt(prev, c, t)[p] == AfterSwaps(s, index, length, k, p)
  {
    var n := |s|;
    OffsetOfShift(index, k - 1, n);
    OffsetOfShift(index, length - k, n);
    assert c != t;
    AfterAt(s, index, length, k - 1, c, k - 1, t);
    AfterAt(s, index, length, k, c, k - 1, t);
    AfterAt(s, index, length, k - 1, t, length - k, c);
    AfterAt(s, index, length, k, t, length - k, c);
    var d := Offset(p, index, n);
    AfterAt(s, index, length, k - 1, p, d, (index + length - 1 - d) % n);
    AfterAt(s, index, length, k, p, d, (index + length - 1 - d) % n);
    if p != c && p != t {
      ShiftOfOffset(p, index, n);
      assert d != k - 1 && d != length - k;
    }
  }

  /** For a window no longer than the list, `reverse` reverses exactly that
      circular window. */
  lemma SwapsReverse(s: seq<int>, index: int, length: int)
    requires |s| > 0 && 0 <= length <= |s|
    ensures Swaps(s, index, length, HalfCount(length)) == ReversedWindow(s, index, length)
  {
    var n := |s|;
    var k := HalfCount(length);
    SwapsPartial(s, index, length, k);
    forall p: nat | p < n
      ensures Swaps(s, index, length, k)[p] == ReversedWindow(s, index, length)[p]
    {
      var d := Offset(p, index, n);
      var q := (index + length - 1 - d) % n;
      AfterAt(s, index, length, k, p, d, q);
      WindowAt(s, index, length, p, d, q);
      ShiftOfOffset(p, index, n);
    }
  }

  /** Reversing the same window twice restores the list. */
  lemma ReverseTwice(s: seq<int>, index: int, length: int)
    requires |s| > 0 && 0 <= length <= |s|
    ensures ReversedWindow(ReversedWindow(s, index, length), index, length) == s
  {
    var n := |s|;
    var once := ReversedWindow(s, index, length);
    forall p: nat | p < n
      ensures ReversedWindow(once, index, length)[p] == s[p]
    {
      ReverseTwiceAt(s, index, length, p);
    }
  }

  lemma ReverseTwiceAt(s: seq<int>, index: int, length: int, p: nat)
    requires |s| > 0 && 0 <= length <= |s| && p < |s|
    ensures ReversedWindow(ReversedWindow(s, index, length), index, length)[p] == s[p]
  {
    var n := |s|;
    var once := ReversedWindow(s, index, length);
    var d := Offset(p, index, n);
    var q := (index + length - 1 - d) % n;
    WindowAt(once, index, length, p, d, q);
    if d < length {
      var e := length - 1 - d;
      OffsetOfShift(index, e, n);
      WindowAt(s, index, length, q, e, (index + length - 1 - e) % n);
      ShiftOfOffset(p, index, n);
      assert (index + length - 1 - e) % n == p;
    }
  }

  /** Cell `p` of a reversed window, with its offset `d` and mirror cell `q`. */
  lemma WindowAt(s: seq<int>, index: int, length: int, p: nat, d: int, q: int)
    requires |s| > 0 && 0 <= length <= |s| && p < |s|
    requires d == Offset(p, index, |s|) && q == (index + length - 1 - d) % |s|
    ensures ReversedWindow(s, index, length)[p] == if d < length then s[q] else s[p]
  {
  }

  // ---------------------------------------------------------------------------
  // cal_hash

  /** The twisting state: the list, the current position and the skip size. */
  datatype Knot = Knot(list: seq<int>, index: int, skip: int)

  /** `list(range(256))`. */
  function Marks(): (r: seq<int>)
    ensures |r| == 256 && forall i :: 0 <= i < 256 ==> r[i] == i
  {
    seq(256, i => i)
  }

  /** One length: reverse, advance the position by length plus skip, grow the skip. */
  function Tie(k: Knot, length: int): (r: Knot)
    requires |k.list| > 0
    ensures |r.list| == |k.list|
    ensures 0 <= r.index < |k.list|
    ensures r.skip == k.skip + 1
  {
    Knot(Swaps(k.list, k.index, length, HalfCount(length)),
         (k.index + length + k.skip) % |k.list|,
         k.skip + 1)
  }

  /** One round: every length of `data` in turn. */
  function TieAll(k: Knot, data: seq<int>): (r: Knot)
    requires |k.list| > 0
    ensures |r.list| == |k.list|
    ensures r.skip == k.skip + |data|
    ensures |data| > 0 ==> 0 <= r.index < |k.list|
  {
    if |data| == 0 then k else Tie(TieAll(k, data[..|data| - 1]), data[|data| - 1])
  }

  /** `times` rounds from the starting state; position and skip carry over. */
  function Rounds(data: seq<int>, times: nat): (r: Knot)
    ensures |r.list| == 256
  {
    if times == 0 then Knot(Marks(), 0, 0) else TieAll(Rounds(data, times - 1), data)
  }

  /** The body of the inner loop of `cal_hash`: reverse, then move on. */
  method TieOne(a: array<int>, index: int, skip: int, length: int) returns (index': int, skip': int)
    requires a.Length == 256
    modifies a
    ensures Knot(a[..], index', skip') == Tie(Knot(old(a[..]), index, skip), length)
  {
    var _ := Reverse(a, index, length);
    index' := (index + length + skip) % a.Length;
    skip' := skip + 1;
  }

  /** The loops of `cal_hash` up to the call of the hash function. */
  method TwistMarks(data: seq<int>, times: nat) returns (hashList: array<int>, index: int, skip: int)
    ensures fresh(hashList)
    ensures Knot(hashList[..], index, skip) == Rounds(data, times)
  {
    hashList := new int[256](i => i);
    assert hashList[..] == Marks();
    index, skip := 0, 0;
    for t := 0 to times
      invariant Knot(hashList[..], index, skip) == Rounds(data, t)
    {
      ghost var start := Knot(hashList[..], index, skip);
      for j := 0 to |data|
        invariant Knot(hashList[..], index, skip) == TieAll(start, data[..j])
      {
        index, skip := TieOne(hashList, index, skip, data[j]);
        TieAllStep(start, data, j);
      }
      assert data[..|data|] == data;
    }
  }

  lemma TieAllStep(k: Knot, data: seq<int>, j: nat)
    requires |k.list| > 0 && j < |data|
    ensures TieAll(k, data[..j + 1]) == Tie(TieAll(k, data[..j]), data[j])
  {
    assert data[..j + 1][..j] == data[..j];
  }

  /** The two hash functions `cal_hash` is called with. */
  datatype HashFun = Multiplication | HexDigest

  datatype HashValue = Product(product: int) | Digest(digest: string)

  function ApplyHash(f: HashFun, h: seq<int>): (r: Result<HashValue>)
    requires IsBytes(h)
    ensures f == Multiplication && r.Ok? ==> r.value.Product?
    ensures f == HexDigest && r.Ok? ==> r.value.Digest?
  {
    match f
    case Multiplication =>
      (match MultiplicationHash(h) case Ok(v) => Ok(Product(v)) case Err(e) => Err(e))
    case HexDigest =>
      (match HexHash(h) case Ok(v) => Ok(Digest(v)) case Err(e) => Err(e))
  }

  /** `cal_hash(data, hash_fun, times)`: it never fails, and the value is the
      chosen hash of the twisted marks. */
  method CalHash(data: seq<int>, f: HashFun, times: nat) returns (r: HashValue)
    ensures IsBytes(Rounds(data, times).list)
    ensures ApplyHash(f, Rounds(data, times).list) == Ok(r)
  {
    var hashList, index, skip := TwistMarks(data, times);
    RoundsPermuteMarks(data, times);
    var h := hashList[..];
    PermutationOfMarks(h);
    match f
    case Multiplication =>
      KnotProduct(data, times);
      r := Product(h[0] * h[1]);
    case HexDigest =>
      HexHashOfBytes(h);
      r := Digest(HexHash(h).value);
  }

  /** Every knot state reached is a permutation of 0..255, its position is
      inside the list, and its skip counts the lengths applied so far. */
  lemma {:induction false} RoundsPermuteMarks(data: seq<int>, times: nat)
    ensures multiset(Rounds(data, times).list) == multiset(Marks())
    ensures 0 <= Rounds(data, times).index < 256
    ensures Rounds(data, times).skip == times * |data|
  {
    if times > 0 {
      RoundsPermuteMarks(data, times - 1);
      TieAllPermutes(Rounds(data, times - 1), data);
      assert times * |data| == (times - 1) * |data| + |data|;
    }
  }

  lemma {:induction false} TieAllPermutes(k: Knot, data: seq<int>)
    requires |k.list| > 0
    ensures multiset(TieAll(k, data).list) == multiset(k.list)
    ensures |data| == 0 ==> TieAll(k, data).index == k.index
    decreases |data|
  {
    if |data| > 0 {
      var prev := TieAll(k, data[..|data| - 1]);
      TieAllPermutes(k, data[..|data| - 1]);
      SwapsPermute(prev.list, prev.index, data[|data| - 1], HalfCount(data[|data| - 1]));
    }
  }

  /** Each length inside 0..256 reverses exactly its circular window. */
  lemma TieReverses(k: Knot, length: int)
    requires |k.list| > 0 && 0 <= length <= |k.list|
    ensures Tie(k, length).list == ReversedWindow(k.list, k.index, length)
  {
    SwapsReverse(k.list, k.index, length);
  }

  // ---------------------------------------------------------------------------
  // multiplication_hash_fun

  /** `hash_list[0] * hash_list[1]`; a list shorter than 2 raises IndexError. */
  function MultiplicationHash(h: seq<int>): (r: Result<int>)
    ensures r.Ok? <==> |h| >= 2
    ensures r.Err? ==> r.error == IndexError
    ensures r.Ok? ==> r.value == h[0] * h[1]
  {
    if |h| < 2 then Err(IndexError) else Ok(h[0] * h[1])
  }

  predicate IsBytes(h: seq<int>) {
    forall i :: 0 <= i < |h| ==> 0 <= h[i] < 256
  }

  lemma MarksMultiplicity(s: seq<int>, v: int)
    requires multiset(s) == multiset(Marks())
    ensures 0 <= v < 256 ==> multiset(s)[v] == 1
    ensures !(0 <= v < 256) ==> multiset(s)[v] == 0
  {
    var m := Marks();
    if 0 <= v < 256 {
      assert m == m[..v] + [v] + m[v + 1..];
      assert v !in m[..v] && v !in m[v + 1..];
    } else {
      assert v !in m;
    }
  }

  /** A permutation of 0..255 holds only bytes and holds each exactly once. */
  lemma PermutationOfMarks(s: seq<int>)
    requires multiset(s) == multiset(Marks())
    ensures |s| == 256 && IsBytes(s)
    ensures forall i, j :: 0 <= i < j < |s| ==> s[i] != s[j]
  {
    assert |s| == |multiset(s)| == 256;
    forall i | 0 <= i < |s| ensures 0 <= s[i] < 256 {
      assert s[i] in multiset(s);
      MarksMultiplicity(s, s[i]);
    }
    forall i, j | 0 <= i < j < |s| ensures s[i] != s[j] {
      if s[i] == s[j] {
        assert s == s[..i] + [s[i]] + s[i + 1..j] + [s[j]] + s[j + 1..];
        assert multiset(s)[s[i]] >= 2;
        MarksMultiplicity(s, s[i]);
        assert false;
      }
    }
  }

  lemma ProductBound(x: int, y: int)
    requires 0 <= x < 256 && 0 <= y < 256 && x != y
    ensures 0 <= x * y <= 255 * 254
  {
    if x < y {
      MulMonotone(x, y, 255);
      MulMonotone(255, x, 254);
    } else {
      MulMonotone(y, x, 255);
      MulMonotone(255, y, 254);
    }
  }

  lemma MulMonotone(a: int, b: int, c: int)
    requires 0 <= a && 0 <= b <= c
    ensures 0 <= a * b <= a * c && a * b == b * a && a * c == c * a
  {
    assert a * c - a * b == a * (c - b);
  }

  /** After any number of rounds the product hash succeeds and multiplies two
      different marks, so it lies in [0, 255 * 254]. */
  lemma KnotProduct(data: seq<int>, times: nat)
    ensures var h := Rounds(data, times).list;
      MultiplicationHash(h).Ok? &&
      h[0] != h[1] && 0 <= h[0] < 256 && 0 <= h[1] < 256 &&
      0 <= MultiplicationHash(h).value <= 255 * 254
  {
    var h := Rounds(data, times).list;
    RoundsPermuteMarks(data, times);
    PermutationOfMarks(h);
    ProductBound(h[0], h[1]);
  }

  // ---------------------------------------------------------------------------
  // hex_hash_fun

  /** `reduce(lambda x, y: x ^ y, block)` on bytes: the left fold of XOR. */
  function XorAll(block: seq<int>): (r: int)
    requires |block| > 0 && IsBytes(block)
    ensures 0 <= r < 256
  {
    if |block| == 1 then block[0]
    else ((XorAll(block[..|block| - 1]) as bv8) ^ (block[|block| - 1] as bv8)) as int
  }

  predicate IsLowerHex(c: char) {
    '0' <= c <= '9' || 'a' <= c <= 'f'
  }

  function HexDigitChar(d: int): (c: char)
    requires 0 <= d < 16
    ensures IsLowerHex(c)
  {
    if d < 10 then ('0' as int + d) as char else ('a' as int + d - 10) as char
  }

  /** The value of a lower-case hex digit. */
  function HexDigitValue(c: char): (d: int)
    requires IsLowerHex(c)
    ensures 0 <= d < 16 && HexDigitChar(d) == c
  {
    if '0' <= c <= '9' then (c - '0') as int else (c - 'a') as int + 10
  }

  /** Formatting a byte with the format spec `02x`: two lower-case hex digits. */
  function HexByte(v: int): (s: string)
    requires 0 <= v < 256
    ensures |s| == 2 && IsLowerHex(s[0]) && IsLowerHex(s[1])
    ensures HexPairValue(s) == v
  {
    var hi := v / 16;
    var lo := v % 16;
    assert HexDigitValue(HexDigitChar(hi)) == hi;
    assert HexDigitValue(HexDigitChar(lo)) == lo;
    [HexDigitChar(hi), HexDigitChar(lo)]
  }

  /** The value of a two-digit lower-case hex string. */
  function HexPairValue(s: string): int
    requires |s| == 2 && IsLowerHex(s[0]) && IsLowerHex(s[1])
  {
    HexDigitValue(s[0]) * 16 + HexDigitValue(s[1])
  }

  predicate HexDigits(s: string) {
    forall i :: 0 <= i < |s| ==> IsLowerHex(s[i])
  }

  /** Pair `j` of a hex string: the two digits that render block `j`. */
  function Pair(s: string, j: nat): (p: string)
    requires 2 * j + 2 <= |s| && HexDigits(s)
    ensures |p| == 2 && IsLowerHex(p[0]) && IsLowerHex(p[1])
  {
    s[2 * j..2 * j + 2]
  }

  /** `hash_list[i:i+16]` for block number `b`. */
  function Block(h: seq<int>, b: nat): (r: seq<int>)
    ensures |r| <= 16
    ensures |r| > 0 <==> |h| > 16 * b
    ensures |h| >= 16 * b + 16 ==> r == h[16 * b..16 * b + 16]
    ensures IsBytes(h) ==> IsBytes(r)
  {
    var r := PySlice(h, 16 * b, 16 * b + 16);
    assert |h| > 16 * b ==> r == h[16 * b..if |h| < 16 * b + 16 then |h| else 16 * b + 16];
    r
  }

  lemma HexConcat(x: string, rest: string)
    requires HexDigits(x) && HexDigits(rest)
    ensures HexDigits(x + rest)
  {
    assert forall i :: 0 <= i < |x + rest| ==> (x + rest)[i] == if i < |x| then x[i] else rest[i - |x|];
  }

  lemma PairShift(x: string, rest: string, j: nat)
    requires |x| == 2 && HexDigits(x) && HexDigits(rest) && 1 <= j && 2 * j + 2 <= |x| + |rest|
    ensures HexDigits(x + rest)
    ensures Pair(x + rest, j) == Pair(rest, j - 1)
  {
    HexConcat(x, rest);
  }

  /** Blocks `b` .. 15 of the hex hash, in order.  An empty block makes
      `reduce` raise TypeError. */
  function HexFrom(h: seq<int>, b: nat): (r: Result<string>)
    requires b <= 16 && IsBytes(h)
    ensures r.Ok? <==> b == 16 || |h| > 16 * 15
    ensures r.Err? ==> r.error == TypeError
    ensures r.Ok? ==> |r.value| == 2 * (16 - b) && HexDigits(r.value)
    ensures r.Ok? ==> forall j: nat :: j < 16 - b ==> HexPairValue(Pair(r.value, j)) == XorAll(Block(h, b + j))
    decreases 16 - b
  {
    if b == 16 then Ok("")
    else
      var block := Block(h, b);
      if |block| == 0 then Err(TypeError)
      else
        match HexFrom(h, b + 1)
        case Err(e) => Err(e)
        case Ok(rest) =>
          var x := HexByte(XorAll(block));
          HexPrepend(x, rest, 15 - b);
          Ok(x + rest)
  }

  /** Two more digits in front shift every pair by one. */
  lemma HexPrepend(x: string, rest: string, n: nat)
    requires |x| == 2 && HexDigits(x) && HexDigits(rest) && |rest| == 2 * n
    ensures |x + rest| == 2 * (n + 1) && HexDigits(x + rest)
    ensures Pair(x + rest, 0) == x
    ensures forall j: nat :: 1 <= j < n + 1 ==> Pair(x + rest, j) == Pair(rest, j - 1)
  {
    HexConcat(x, rest);
    forall j: nat | 1 <= j < n + 1
      ensures Pair(x + rest, j) == Pair(rest, j - 1)
    {
      PairShift(x, rest, j);
    }
  }

  /** `hex_hash_fun(hash_list)`: 16 blocks of 16 marks, each XOR-reduced and
      written as two hex digits; a list of 240 marks or fewer leaves a block
      empty and raises TypeError. */
  function HexHash(h: seq<int>): (r: Result<string>)
    requires IsBytes(h)
    ensures r.Ok? <==> |h| > 240
    ensures r.Err? ==> r.error == TypeError
    ensures r.Ok? ==> |r.value| == 32 && HexDigits(r.value)
    ensures r.Ok? ==> forall b: nat :: b < 16 ==> HexPairValue(Pair(r.value, b)) == XorAll(Block(h, b))
  {
    HexFrom(h, 0)
  }

  /** On a 256-mark list the hex hash always succeeds, and its pair `b` is the
      XOR of marks `16 b` .. `16 b + 15`. */
  lemma HexHashOfBytes(h: seq<int>)
    requires |h| == 256 && IsBytes(h)
    ensures HexHash(h).Ok? && |HexHash(h).value| == 32
    ensures forall b: nat :: b < 16 ==> HexPairValue(Pair(HexHash(h).value, b)) == XorAll(h[16 * b..16 * b + 16])
  {
    forall b: nat | b < 16 ensures Block(h, b) == h[16 * b..16 * b + 16] {
    }
  }
}
