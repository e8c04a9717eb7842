/** The pieces of Python's string and list behaviour that the solvers lean on:
    negative indexing, clamped slicing, `str.split`, `str.join`, `str.index`,
    `str(n)` for integers, `int(s)` for strings, and `str.upper` on ASCII. */
module Text {
  import opened Wrappers

  // ---------------------------------------------------------------------------
  // Indexing and slicing

  /** `s[i]` in Python: a negative index counts from the end, anything outside
      `-len(s) .. len(s)-1` raises IndexError (here: None). */
  function PyIndex<T>(s: seq<T>, i: int): (r: Option<T>)
    ensures r.Some? <==> -|s| <= i < |s|
    ensures 0 <= i < |s| ==> r == Some(s[i])
    ensures -|s| <= i < 0 ==> r == Some(s[|s| + i])
  {
    if 0 <= i < |s| then Some(s[i])
    else if -|s| <= i < 0 then Some(s[|s| + i])
    else None
  }

  /** How Python normalises a slice bound against a length `n`. */
  function SliceBound(i: int, n: nat): (r: nat)
    ensures r <= n
    ensures 0 <= i <= n ==> r == i
  {
    if i < 0 then (if i + n < 0 then 0 else i + n)
    else if i > n then n
    else i
  }

  /** `s[a:b]` in Python, never an error. */
  function PySlice<T>(s: seq<T>, a: int, b: int): (r: seq<T>)
    ensures |r| <= |s|
    ensures 0 <= a <= b <= |s| ==> r == s[a..b]
  {
    var lo := SliceBound(a, |s|);
    var hi := SliceBound(b, |s|);
    if lo <= hi then s[lo..hi] else []
  }

  // ---------------------------------------------------------------------------
  // Searching

  /** The length of the longest prefix of `s` whose characters satisfy `p`. */
  function Span(s: string, p: char -> bool): (n: nat)
    ensures n <= |s|
    ensures forall i :: 0 <= i < n ==> p(s[i])
    ensures n < |s| ==> !p(s[n])
    decreases |s|
  {
    if |s| == 0 || !p(s[0]) then 0 else 1 + Span(s[1..], p)
  }

  /** `t` occurs in `s` starting at position `k`. */
  predicate OccursAt(s: string, t: string, k: int) {
    0 <= k && k + |t| <= |s| && s[k..k + |t|] == t
  }

  /** `s.find(t)` / `s.index(t)`: the first position where `t` occurs, if any. */
  function Find(s: string, t: string): (r: Option<nat>)
    ensures r.Some? ==> OccursAt(s, t, r.value)
    ensures r.Some? ==> forall j :: 0 <= j < r.value ==> !OccursAt(s, t, j)
    ensures r.None? ==> forall j :: !OccursAt(s, t, j)
    decreases |s|
  {
    if |s| < |t| then None
    else if s[..|t|] == t then Some(0)
    else
      var rest := Find(s[1..], t);
      assert !OccursAt(s, t, 0) by { assert s[0..|t|] == s[..|t|]; }
      assert forall j :: 1 <= j ==> (OccursAt(s, t, j) <==> OccursAt(s[1..], t, j - 1)) by {
        forall j | 1 <= j ensures OccursAt(s, t, j) <==> OccursAt(s[1..], t, j - 1) {
          if j + |t| <= |s| {
            SliceOfTail(s, j, |t|);
          }
        }
      }
      if rest.Some? then Some(rest.value + 1) else None
  }

  lemma SliceOfTail(s: string, j: nat, n: nat)
    requires 1 <= j && j + n <= |s|
    ensures s[j..j + n] == s[1..][j - 1..j - 1 + n]
  {
    var a, b := s[j..j + n], s[1..][j - 1..j - 1 + n];
    assert |a| == |b|;
    assert forall k :: 0 <= k < n ==> a[k] == b[k];
  }

  /** `t in s` for strings. */
  predicate Contains(s: string, t: string) {
    Find(s, t).Some?
  }

  // ---------------------------------------------------------------------------
  // Splitting and joining

  /** `s.split(sep)` for a non-empty separator: cut at each leftmost occurrence. */
  function Split(s: string, sep: string): (parts: seq<string>)
    requires |sep| > 0
    ensures |parts| >= 1
    decreases |s|
  {
    match Find(s, sep)
    case None => [s]
    case Some(k) => [s[..k]] + Split(s[k + |sep|..], sep)
  }

  /** `sep.join(parts)`. */
  function Join(parts: seq<string>, sep: string): string
    decreases |parts|
  {
    if |parts| == 0 then ""
    else if |parts| == 1 then parts[0]
    else parts[0] + sep + Join(parts[1..], sep)
  }

  /** Splitting and re-joining with the same separator gives the string back. */
  lemma {:induction false} JoinSplit(s: string, sep: string)
    requires |sep| > 0
    ensures Join(Split(s, sep), sep) == s
    decreases |s|
  {
    var f := Find(s, sep);
    if f.Some? {
      var k := f.value;
      var rest := s[k + |sep|..];
      var tail := Split(rest, sep);
      SplitAt(s, sep);
      JoinSplit(rest, sep);
      JoinCons(s[..k], tail, sep);
      Reassemble(s, k, sep);
    }
  }

  lemma SplitAt(s: string, sep: string)
    requires |sep| > 0 && Find(s, sep).Some?
    ensures var k := Find(s, sep).value;
      Split(s, sep) == [s[..k]] + Split(s[k + |sep|..], sep)
  {
  }

  lemma Reassemble(s: string, k: nat, sep: string)
    requires OccursAt(s, sep, k)
    ensures s == s[..k] + sep + s[k + |sep|..]
  {
    assert s == s[..k] + s[k..k + |sep|] + s[k + |sep|..];
  }

  lemma JoinCons(head: string, tail: seq<string>, sep: string)
    requires |tail| >= 1
    ensures Join([head] + tail, sep) == head + sep + Join(tail, sep)
  {
    assert ([head] + tail)[1..] == tail;
  }

  /** An occurrence of `sep` starts with its first character. */
  lemma OccursFirst(s: string, sep: string, k: int)
    requires |sep| > 0 && OccursAt(s, sep, k)
    ensures 0 <= k < |s| && s[k] == sep[0]
  {
    assert s[k..k + |sep|][0] == s[k];
  }

  /** Joining pieces that lack the separator's first character, then
      splitting, gives the pieces back. */
  lemma {:induction false} SplitJoin(parts: seq<string>, sep: string)
    requires |parts| >= 1 && |sep| > 0
    requires forall i :: 0 <= i < |parts| ==> sep[0] !in parts[i]
    ensures Split(Join(parts, sep), sep) == parts
    decreases |parts|
  {
    var s := Join(parts, sep);
    var p0 := parts[0];
    if |parts| == 1 {
      if Find(s, sep).Some? {
        OccursFirst(s, sep, Find(s, sep).value);
      }
    } else {
      var rest := Join(parts[1..], sep);
      assert s == p0 + sep + rest;
      assert s[|p0|..|p0| + |sep|] == sep;
      assert OccursAt(s, sep, |p0|);
      var k := Find(s, sep).value;
      OccursFirst(s, sep, k);
      assert forall j :: 0 <= j < |p0| ==> s[j] == p0[j];
      assert k == |p0|;
      assert s[..k] == p0;
      assert s[k + |sep|..] == rest;
      SplitJoin(parts[1..], sep);
      assert parts == [p0] + parts[1..];
    }
  }

  /** No piece produced by `Split` contains the separator. */
  lemma {:induction false} SplitPiecesFree(s: string, sep: string)
    requires |sep| > 0
    ensures forall p :: p in Split(s, sep) ==> !Contains(p, sep)
    decreases |s|
  {
    var f := Find(s, sep);
    if f.Some? {
      var k := f.value;
      var rest := s[k + |sep|..];
      SplitAt(s, sep);
      SplitPiecesFree(rest, sep);
      HeadFree(s, sep, k);
      var tail := Split(rest, sep);
      assert forall p :: p in [s[..k]] + tail ==> p == s[..k] || p in tail;
    }
  }

  /** The piece before the first occurrence has no occurrence of its own. */
  lemma HeadFree(s: string, sep: string, k: nat)
    requires |sep| > 0 && Find(s, sep) == Some(k)
    ensures !Contains(s[..k], sep)
  {
    var head := s[..k];
    forall j | OccursAt(head, sep, j) ensures false {
      assert head[j..j + |sep|] == s[j..j + |sep|];
      assert OccursAt(s, sep, j);
    }
  }

  // ---------------------------------------------------------------------------
  // Digits and integers

  predicate IsDigit(c: char) {
    '0' <= c <= '9'
  }

  /** `int(c)` for a single digit character. */
  function DigitValue(c: char): (d: nat)
    requires IsDigit(c)
    ensures d < 10
  {
    (c - '0') as nat
  }

  function DigitChar(d: nat): (c: char)
    requires d < 10
    ensures IsDigit(c) && DigitValue(c) == d
  {
    ('0' as int + d) as char
  }

  predicate AllDigits(s: string) {
    forall i :: 0 <= i < |s| ==> IsDigit(s[i])
  }

  /** The value of a run of decimal digits, most significant first. */
  function DigitsValue(s: string): nat
    requires AllDigits(s)
    decreases |s|
  {
    if |s| == 0 then 0 else DigitsValue(s[..|s| - 1]) * 10 + DigitValue(s[|s| - 1])
  }

  /** `str(n)` for a natural number. */
  function NatString(n: nat): (s: string)
    ensures |s| >= 1 && AllDigits(s)
  {
    if n < 10 then [DigitChar(n)] else NatString(n / 10) + [DigitChar(n % 10)]
  }

  /** `str(n)` for any integer: a minus sign, then the digits of the magnitude. */
  function DecimalString(n: int): string {
    if n < 0 then "-" + NatString(-n) else NatString(n)
  }

  /** `str(n)` is made of digits and at most a minus sign. */
  lemma DecimalStringChars(n: int)
    ensures forall x :: x in DecimalString(n) ==> IsDigit(x) || x == '-'
  {
    var d := NatString(if n < 0 then -n else n);
    assert forall x :: x in d ==> IsDigit(x);
  }

  /** The characters Python's `int()` strips from both ends (the ASCII ones:
      space, tab, newline, vertical tab, form feed, carriage return, 0x1c-0x1f). */
  predicate IsSpace(c: char) {
    c == ' ' || (9 <= c as int <= 13) || (28 <= c as int <= 31)
  }

  function StripLeft(s: string): (r: string)
    ensures |r| <= |s| && (|r| > 0 ==> !IsSpace(r[0]))
    ensures !(|s| > 0 && IsSpace(s[0])) ==> r == s
    decreases |s|
  {
    if |s| > 0 && IsSpace(s[0]) then StripLeft(s[1..]) else s
  }

  function StripRight(s: string): (r: string)
    ensures |r| <= |s| && (|r| > 0 ==> !IsSpace(r[|r| - 1]))
    ensures !(|s| > 0 && IsSpace(s[|s| - 1])) ==> r == s
    decreases |s|
  {
    if |s| > 0 && IsSpace(s[|s| - 1]) then StripRight(s[..|s| - 1]) else s
  }

  /** `s.strip()` restricted to the ASCII whitespace above. */
  function Strip(s: string): string {
    StripRight(StripLeft(s))
  }

  /** `int(s)`: surrounding whitespace, an optional sign and at least one digit;
      anything else raises ValueError (here: None). */
  function ParseInt(s: string): (r: Option<int>)
    ensures AllDigits(s) && |s| > 0 ==> r == Some(DigitsValue(s))
  {
    var t := Strip(s);
    if |t| > 1 && (t[0] == '-' || t[0] == '+') && AllDigits(t[1..]) then
      var magnitude: int := DigitsValue(t[1..]);
      Some(if t[0] == '-' then -magnitude else magnitude)
    else if |t| > 0 && AllDigits(t) then Some(DigitsValue(t))
    else None
  }

  lemma {:induction false} DigitsOfNatString(n: nat)
    ensures DigitsValue(NatString(n)) == n
  {
    if n >= 10 {
      DigitsOfNatString(n / 10);
      var s := NatString(n);
      assert s[..|s| - 1] == NatString(n / 10);
    }
  }

  /** A minus sign followed by digits has nothing to strip and parses as the
      negated digits. */
  lemma ParseNegative(s: string)
    requires |s| > 1 && s[0] == '-' && AllDigits(s[1..])
    ensures var v: int := DigitsValue(s[1..]); ParseInt(s) == Some(-v)
  {
    assert s[|s| - 1] == s[1..][|s| - 2];
    assert StripLeft(s) == s;
    assert StripRight(s) == s;
  }

  lemma ParseNatString(n: nat)
    ensures ParseInt(NatString(n)) == Some(n)
  {
    DigitsOfNatString(n);
  }

  /** A minus sign and digits parse as the negated digits. */
  lemma ParseNegativeDigits(d: string, v: int)
    requires |d| > 0 && AllDigits(d) && v == DigitsValue(d)
    ensures ParseInt("-" + d) == Some(-v)
  {
    var s := "-" + d;
    assert s[0] == '-' && s[1..] == d;
    ParseNegative(s);
  }

  lemma ParseNegativeNatString(n: nat)
    ensures ParseInt("-" + NatString(n)) == Some(-(n as int))
  {
    DigitsOfNatString(n);
    ParseNegativeDigits(NatString(n), n);
  }

  /** `int(str(n)) == n` for every integer. */
  lemma ParseDecimalString(n: int)
    ensures ParseInt(DecimalString(n)) == Some(n)
  {
    if n < 0 {
      ParseNegativeNatString(-n);
    } else {
      ParseNatString(n);
    }
  }

  // ---------------------------------------------------------------------------
  // Case

  /** `c.upper()` for ASCII: lower-case letters map to upper case, all else is kept. */
  function Upper(c: char): (u: char)
    ensures 'a' <= c <= 'z' ==> u as int == c as int - 32
    ensures !('a' <= c <= 'z') ==> u == c
  {
    if 'a' <= c <= 'z' then (c as int - 32) as char else c
  }

  function UpperString(s: string): (r: string)
    ensures |r| == |s| && forall i :: 0 <= i < |s| ==> r[i] == Upper(s[i])
  {
    seq(|s|, i requires 0 <= i < |s| => Upper(s[i]))
  }
}
