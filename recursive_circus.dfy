/** Recursive circus (2017 day 7): programs stand on discs held by other
    programs.  Lines such as `fwft (72) -> ktlj, cntj, xhth` give each
    program's weight and the programs on its disc; the solver finds the
    bottom program and checks that every disc carries sub-towers of equal
    weight. */
module RecursiveCircus {
  import opened Wrappers
  import opened Text

  /** `Disc(name, weight, sub_discs)`; a program without sub-discs (`None`)
      has the empty list. */
  datatype Disc = Disc(name: string, weight: nat, subDiscs: seq<string>)

  /** `has_children`: the sub-disc list is non-empty. */
  predicate HasChildren(d: Disc) {
    |d.subDiscs| > 0
  }

  // ---------------------------------------------------------------------------
  // Parsing a line: `(?P<name>^\w+) \((?P<weight>\d+)\)(.*(?<=-> )(?P<sub_discs>.*))?`
  // written out by hand for ASCII text.

  /** `\w` on ASCII: letters, digits and the underscore. */
  predicate IsWordChar(c: char) {
    'a' <= c <= 'z' || 'A' <= c <= 'Z' || IsDigit(c) || c == '_'
  }

  /** `-> ` ends just before position `p` of `s`. */
  predicate ArrowAt(s: string, p: int) {
    3 <= p <= |s| && s[p - 3..p] == "-> "
  }

  /** The greedy `.*(?<=-> )`: the last position just after a `-> `. */
  function LastArrow(s: string): (r: Option<nat>)
    ensures r.Some? ==> ArrowAt(s, r.value)
    ensures r.Some? ==> forall p :: r.value < p ==> !ArrowAt(s, p)
    ensures r.None? ==> forall p :: !ArrowAt(s, p)
    decreases |s|
  {
    if |s| < 3 then None
    else if s[|s| - 3..] == "-> " then Some(|s|)
    else
      var r := LastArrow(s[..|s| - 1]);
      assert forall p :: p < |s| ==> (ArrowAt(s, p) <==> ArrowAt(s[..|s| - 1], p)) by {
        forall p | p < |s| ensures ArrowAt(s, p) <==> ArrowAt(s[..|s| - 1], p) {
          if 3 <= p {
            assert s[p - 3..p] == s[..|s| - 1][p - 3..p];
          }
        }
      }
      r
  }

  /** What `.` can match: the text up to the first newline. */
  function LineText(s: string): (r: string)
    ensures '\n' !in r
  {
    var k := match Find(s, "\n") case None => |s| case Some(k) => k;
    assert forall i :: 0 <= i < k ==> !OccursAt(s, "\n", i);
    assert forall i :: 0 <= i < k ==> s[i] != '\n' by {
      forall i | 0 <= i < k ensures s[i] != '\n' {
        assert !OccursAt(s, "\n", i);
        assert s[i..i + 1] == [s[i]];
      }
    }
    s[..k]
  }

  /** The sub-disc list of the text after `)`: the names after the last
      `-> `, split at `, `; nothing there (or an empty rest) means `None`. */
  function SubDiscs(tail: string): seq<string> {
    var text := LineText(tail);
    match LastArrow(text)
    case None => []
    case Some(p) => if text[p..] == "" then [] else Split(text[p..], ", ")
  }

  /** One line of the input; a line the pattern does not match makes
      `matches.group` raise AttributeError. */
  function ParseDisc(line: string): (r: Result<Disc>)
    ensures r.Err? ==> r.error == AttributeError
  {
    var n := Span(line, IsWordChar);
    if n == 0 then Err(AttributeError) else ParseWeighed(line[..n], line[n..])
  }

  /** The rest of a line after the name `name`: ` (`, digits, `)`, and the
      optional list of sub-discs. */
  function ParseWeighed(name: string, rest: string): (r: Result<Disc>)
    ensures r.Err? ==> r.error == AttributeError
  {
    if |rest| < 2 || rest[..2] != " (" then Err(AttributeError)
    else
      var t := rest[2..];
      var k := Span(t, IsDigit);
      if k == 0 || k == |t| || t[k] != ')' then Err(AttributeError)
      else Ok(Disc(name, DigitsValue(t[..k]), SubDiscs(t[k + 1..])))
  }

  // ---------------------------------------------------------------------------
  // Rendering, and parsing it back

  /** Every character of `s` satisfies `p`. */
  predicate All(s: string, p: char -> bool) {
    forall i :: 0 <= i < |s| ==> p(s[i])
  }

  /** A program name as the pattern's `\w+` reads it. */
  predicate Name(s: string) {
    |s| > 0 && All(s, IsWordChar)
  }

  /** A character of a `, `-separated list of names. */
  predicate ListChar(c: char) {
    IsWordChar(c) || c == ',' || c == ' '
  }

  /** The text of a disc in the input's own layout, newline included. */
  function Render(d: Disc): string {
    d.name + " (" + NatString(d.weight) + ")" + Tail(d.subDiscs)
  }

  /** What a rendered line holds after `)`. */
  function Tail(subs: seq<string>): string {
    (if |subs| > 0 then " -> " + Join(subs, ", ") else "") + "\n"
  }

  lemma AllConcat(s: string, t: string, p: char -> bool)
    requires All(s, p) && All(t, p)
    ensures All(s + t, p)
  {
    assert forall i :: 0 <= i < |s + t| ==> (s + t)[i] == if i < |s| then s[i] else t[i - |s|];
  }

  lemma SpanAll(s: string, t: string, p: char -> bool)
    requires All(s, p)
    requires |t| > 0 && !p(t[0])
    ensures Span(s + t, p) == |s|
    decreases |s|
  {
    if |s| > 0 {
      assert (s + t)[1..] == s[1..] + t;
      SpanAll(s[1..], t, p);
    } else {
      assert s + t == t;
    }
  }

  /** A joined list of names is made of list characters, and is not empty. */
  lemma {:induction false} JoinChars(parts: seq<string>)
    requires |parts| > 0 && forall i :: 0 <= i < |parts| ==> Name(parts[i])
    ensures All(Join(parts, ", "), ListChar)
    ensures |Join(parts, ", ")| > 0
    decreases |parts|
  {
    if |parts| > 1 {
      JoinChars(parts[1..]);
      assert Name(parts[0]);
      AllConcat(parts[0], ", ", ListChar);
      AllConcat(parts[0] + ", ", Join(parts[1..], ", "), ListChar);
    } else {
      assert Name(parts[0]);
    }
  }

  /** The arrow of `" -> " + j` is its only one. */
  lemma OnlyArrow(j: string)
    requires All(j, ListChar)
    ensures LastArrow(" -> " + j) == Some(4)
  {
    var body := " -> " + j;
    assert ArrowAt(body, 4) by {
      assert body[1..4] == "-> ";
    }
    forall p | 4 < p ensures !ArrowAt(body, p) {
      if p <= |body| {
        assert p == 5 || ListChar(j[p - 6]);
        assert body[p - 2] != '>';
      }
    }
  }

  /** The text before the newline of `body + "\n"` is `body`. */
  lemma LineOf(body: string)
    requires '\n' !in body
    ensures LineText(body + "\n") == body
  {
    var s := body + "\n";
    assert OccursAt(s, "\n", |body|) by {
      assert s[|body|..|body| + 1] == "\n";
    }
    var k := Find(s, "\n").value;
    OccursFirst(s, "\n", k);
    assert k == |body|;
    assert s[..k] == body;
  }

  /** The text after `)` of a rendered line gives the sub-discs back. */
  lemma SubDiscsRender(subs: seq<string>)
    requires forall i :: 0 <= i < |subs| ==> Name(subs[i])
    ensures SubDiscs(Tail(subs)) == subs
  {
    if |subs| > 0 {
      var j := Join(subs, ", ");
      var body := " -> " + j;
      JoinChars(subs);
      assert '\n' !in body by {
        forall i | 0 <= i < |body| ensures body[i] != '\n' {
          assert i < 4 || ListChar(j[i - 4]);
        }
      }
      LineOf(body);
      OnlyArrow(j);
      assert body[4..] == j;
      forall i | 0 <= i < |subs| ensures ", "[0] !in subs[i] {
        assert Name(subs[i]);
      }
      SplitJoin(subs, ", ");
    } else {
      LineOf("");
    }
  }

  /** A line that starts with a name and then anything but a word character. */
  lemma ParseName(name: string, rest: string)
    requires Name(name) && |rest| >= 2 && rest[..2] == " ("
    ensures ParseDisc(name + rest) == ParseWeighed(name, rest)
  {
    SpanAll(name, rest, IsWordChar);
    assert (name + rest)[..|name|] == name;
    assert (name + rest)[|name|..] == rest;
  }

  /** ` (`, digits, `)` and a tail. */
  lemma ParseWeight(name: string, w: string, after: string)
    requires |w| > 0 && AllDigits(w) && |after| > 0 && after[0] == ')'
    ensures ParseWeighed(name, " (" + (w + after)) == Ok(Disc(name, DigitsValue(w), SubDiscs(after[1..])))
  {
    var t := w + after;
    assert (" (" + t)[..2] == " (";
    assert (" (" + t)[2..] == t;
    SpanAll(w, after, IsDigit);
    assert t[..|w|] == w;
    assert t[|w| + 1..] == after[1..];
  }

  /** Parsing reads back every disc whose names are words. */
  lemma ParseRender(d: Disc)
    requires Name(d.name) && forall i :: 0 <= i < |d.subDiscs| ==> Name(d.subDiscs[i])
    ensures ParseDisc(Render(d)) == Ok(d)
  {
    var w := NatString(d.weight);
    var after := ")" + Tail(d.subDiscs);
    assert Render(d) == d.name + (" (" + (w + after));
    assert after[1..] == Tail(d.subDiscs);
    ParseName(d.name, " (" + (w + after));
    ParseWeight(d.name, w, after);
    DigitsOfNatString(d.weight);
    SubDiscsRender(d.subDiscs);
  }

  // ---------------------------------------------------------------------------
  // Dictionaries in insertion order

  /** A Python dict from names to weights, as its items in insertion order. */
  type Assoc = seq<(string, int)>

  /** A dict's keys are distinct. */
  predicate DistinctKeys(a: Assoc) {
    forall i, j :: 0 <= i < j < |a| ==> a[i].0 != a[j].0
  }

  /** Where the key `k` first appears in `a`. */
  function IndexOf(a: Assoc, k: string): (r: Option<nat>)
    ensures r.Some? ==> r.value < |a| && a[r.value].0 == k
    ensures r.Some? ==> forall j :: 0 <= j < r.value ==> a[j].0 != k
    ensures r.None? ==> forall j :: 0 <= j < |a| ==> a[j].0 != k
    decreases |a|
  {
    if |a| == 0 then None
    else if a[0].0 == k then Some(0)
    else match IndexOf(a[1..], k) case None => None case Some(i) => Some(i + 1)
  }

  /** `d[k] = v`: an existing key keeps its place and takes the new value,
      a new key goes last. */
  function Put(a: Assoc, k: string, v: int): (r: Assoc)
    ensures DistinctKeys(a) ==> DistinctKeys(r)
    ensures IndexOf(a, k).None? ==> r == a + [(k, v)]
    ensures IndexOf(a, k).Some? ==> r == a[IndexOf(a, k).value := (k, v)]
  {
    match IndexOf(a, k)
    case None => a + [(k, v)]
    case Some(i) => a[i := (k, v)]
  }

  /** `sum(d.values())`. */
  function SumValues(a: Assoc): int
    decreases |a|
  {
    if |a| == 0 then 0 else SumValues(a[..|a| - 1]) + a[|a| - 1].1
  }

  /** `set(d.values())`. */
  function ValueSet(a: Assoc): set<int> {
    set i | 0 <= i < |a| :: a[i].1
  }

  lemma PutValueSet(a: Assoc, k: string, v: int)
    ensures v in ValueSet(Put(a, k, v))
    ensures |Put(a, k, v)| > 0
  {
    match IndexOf(a, k)
    case None =>
      assert Put(a, k, v)[|a|] == (k, v);
    case Some(i) =>
      assert Put(a, k, v)[i] == (k, v);
  }

  lemma ValueSetNonEmpty(a: Assoc)
    requires |a| > 0
    ensures |ValueSet(a)| >= 1
  {
    assert a[0].1 in ValueSet(a);
  }

  /** `len(set(d.values())) == 1`. */
  predicate OneWeight(a: Assoc) {
    |ValueSet(a)| == 1
  }

  // ---------------------------------------------------------------------------
  // check_balance

  /** `DISC_MAP`: every disc read so far, under its name. */
  type DiscMap = map<string, Disc>

  /** What looking up one child and checking it gives: the name is not in
      the map (KeyError), or the child's weight and its own result. */
  datatype Child = Missing | Checked(weight: nat, result: Result<(bool, Assoc)>)

  /** How far the loop over the children got: every child so far balanced,
      with the weights of their towers, or stopped at an unbalanced one
      with that child's own map. */
  datatype Scan = Continue(cmap: Assoc) | Stop(c: Assoc)

  /** `d.check_balance()`: whether `d`, and every disc above it, is
      balanced, with the tower weight of each child.  `fuel` bounds the
      depth of the recursion, as Python's recursion limit does (a cyclic map
      recurses until RecursionError). */
  function Balance(m: DiscMap, d: Disc, fuel: nat): Result<(bool, Assoc)>
    decreases fuel, 0
  {
    if !HasChildren(d) then Ok((true, []))
    else if fuel == 0 then Err(RecursionError)
    else
      Verdict(ScanChildren(d.subDiscs, Checks(m, d, fuel - 1)))
  }

  /** What `check_balance` returns once the loop over the children is done:
      an error passes on, an unbalanced child's map is returned with False,
      and otherwise the disc is balanced when its map has one weight. */
  function Verdict(r: Result<Scan>): Result<(bool, Assoc)> {
    match r
    case Err(e) => Err(e)
    case Ok(Stop(c)) => Ok((false, c))
    case Ok(Continue(cmap)) => Ok((OneWeight(cmap), cmap))
  }

  /** What checking each child of `d` gives, in order. */
  function Checks(m: DiscMap, d: Disc, fuel: nat): (rs: seq<Child>)
    ensures |rs| == |d.subDiscs|
    ensures forall i :: 0 <= i < |rs| ==> rs[i] == Check(m, d.subDiscs[i], fuel)
    decreases fuel, 2
  {
    seq(|d.subDiscs|, i requires 0 <= i < |d.subDiscs| => Check(m, d.subDiscs[i], fuel))
  }

  /** `DISC_MAP[child]`, then `child_disc.check_balance()`. */
  function Check(m: DiscMap, name: string, fuel: nat): Child
    decreases fuel, 1
  {
    if name in m then Checked(m[name].weight, Balance(m, m[name], fuel)) else Missing
  }

  /** The loop over the children `subs`, in list order, where `rs[i]` is
      what checking `subs[i]` gives.  Python checks a child only when the
      loop gets to it; `Balance` is total, so computing every `rs[i]` up
      front gives the same outcome. */
  function ScanChildren(subs: seq<string>, rs: seq<Child>): Result<Scan>
    requires |rs| == |subs|
    decreases |subs|
  {
    if |subs| == 0 then Ok(Continue([]))
    else
      var n := |subs| - 1;
      match ScanChildren(subs[..n], rs[..n])
      case Err(e) => Err(e)
      case Ok(Stop(c)) => Ok(Stop(c))
      case Ok(Continue(cmap)) =>
        match rs[n]
        case Missing => Err(KeyError)
        case Checked(w, Err(e)) => Err(e)
        case Checked(w, Ok((false, c))) => Ok(Stop(c))
        case Checked(w, Ok((true, c))) => Ok(Continue(Put(cmap, subs[n], SumValues(c) + w)))
  }

  lemma LeafBalanced(m: DiscMap, d: Disc, fuel: nat)
    requires !HasChildren(d)
    ensures Balance(m, d, fuel) == Ok((true, []))
  {
  }

  /** No sub-disc list names a program twice. */
  predicate NoDuplicates(subs: seq<string>) {
    forall i, j :: 0 <= i < j < |subs| ==> subs[i] != subs[j]
  }

  /** The child was found and is balanced. */
  predicate Passed(r: Child) {
    r.Checked? && r.result.Ok? && r.result.value.0
  }

  /** The entry `cmap[child] = sum(c_map.values()) + child_disc.weight`. */
  function Entry(name: string, r: Child): (string, int)
    requires Passed(r)
  {
    (name, SumValues(r.result.value.1) + r.weight)
  }

  /** What the loop ends with when it meets a child that did not pass. */
  function Failed(r: Child): Result<Scan>
    requires !Passed(r)
  {
    match r
    case Missing => Err(KeyError)
    case Checked(_, Err(e)) => Err(e)
    case Checked(_, Ok((_, c))) => Ok(Stop(c))
  }

  /** The loop goes through exactly when every child passes. */
  lemma {:induction false} ScanThrough(subs: seq<string>, rs: seq<Child>)
    requires |rs| == |subs|
    ensures ScanChildren(subs, rs).Ok? && ScanChildren(subs, rs).value.Continue? <==>
      forall i :: 0 <= i < |subs| ==> Passed(rs[i])
    decreases |subs|
  {
    if |subs| > 0 {
      var n := |subs| - 1;
      ScanThrough(subs[..n], rs[..n]);
      assert forall i :: 0 <= i < n ==> rs[..n][i] == rs[i];
    }
  }

  /** One more child that passes, after a loop that went through. */
  lemma ScanStep(subs: seq<string>, rs: seq<Child>, cmap: Assoc, v: int)
    requires |rs| == |subs| > 0
    requires ScanChildren(subs[..|subs| - 1], rs[..|subs| - 1]) == Ok(Continue(cmap))
    requires Passed(rs[|subs| - 1]) && v == Entry(subs[|subs| - 1], rs[|subs| - 1]).1
    ensures ScanChildren(subs, rs) == Ok(Continue(Put(cmap, subs[|subs| - 1], v)))
  {
  }

  /** The map of a loop that went through holds every child once. */
  lemma {:induction false} ScanKeys(subs: seq<string>, rs: seq<Child>, cmap: Assoc)
    requires |rs| == |subs| && ScanChildren(subs, rs) == Ok(Continue(cmap))
    ensures DistinctKeys(cmap) && (|cmap| > 0 <==> |subs| > 0)
    decreases |subs|
  {
    ScanThrough(subs, rs);
    if |subs| > 0 {
      var n := |subs| - 1;
      ScanThrough(subs[..n], rs[..n]);
      assert forall i :: 0 <= i < n ==> rs[..n][i] == rs[i];
      var pre := ScanChildren(subs[..n], rs[..n]).value.cmap;
      ScanKeys(subs[..n], rs[..n], pre);
      var v := Entry(subs[n], rs[n]).1;
      ScanStep(subs, rs, pre, v);
      PutValueSet(pre, subs[n], v);
    }
  }

  /** A key not yet in the dict is appended. */
  lemma PutFresh(a: Assoc, k: string, v: int)
    requires forall i :: 0 <= i < |a| ==> a[i].0 != k
    ensures Put(a, k, v) == a + [(k, v)]
  {
  }

  /** With no name repeated, the map of a loop that went through is the
      list of entries, in order. */
  lemma {:induction false} ScanEntries(subs: seq<string>, rs: seq<Child>, cmap: Assoc)
    requires |rs| == |subs| && ScanChildren(subs, rs) == Ok(Continue(cmap))
    requires NoDuplicates(subs)
    ensures |cmap| == |subs|
    ensures forall i :: 0 <= i < |subs| ==> Passed(rs[i]) && cmap[i] == Entry(subs[i], rs[i])
    decreases |subs|
  {
    ScanThrough(subs, rs);
    if |subs| > 0 {
      var n := |subs| - 1;
      assert forall i :: 0 <= i < n ==> subs[..n][i] == subs[i] && rs[..n][i] == rs[i];
      ScanThrough(subs[..n], rs[..n]);
      var pre := ScanChildren(subs[..n], rs[..n]).value.cmap;
      assert NoDuplicates(subs[..n]);
      ScanEntries(subs[..n], rs[..n], pre);
      var v := Entry(subs[n], rs[n]).1;
      ScanStep(subs, rs, pre, v);
      PutFresh(pre, subs[n], v);
    }
  }

  /** Otherwise the first child that does not pass decides the outcome: a
      missing name or an error is passed on, and the `(False, map)` of an
      unbalanced child is returned unchanged. */
  lemma {:induction false} ScanStops(subs: seq<string>, rs: seq<Child>)
    requires |rs| == |subs|
    ensures !(ScanChildren(subs, rs).Ok? && ScanChildren(subs, rs).value.Continue?) ==>
      exists i :: 0 <= i < |subs| && (forall j :: 0 <= j < i ==> Passed(rs[j])) &&
        !Passed(rs[i]) && ScanChildren(subs, rs) == Failed(rs[i])
    decreases |subs|
  {
    if |subs| > 0 {
      var n := |subs| - 1;
      var r := ScanChildren(subs[..n], rs[..n]);
      assert forall i :: 0 <= i < n ==> rs[..n][i] == rs[i];
      if r.Ok? && r.value.Continue? {
        ScanThrough(subs[..n], rs[..n]);
        if !Passed(rs[n]) {
          ScanFail(subs, rs, r.value.cmap);
        } else {
          ScanStep(subs, rs, r.value.cmap, Entry(subs[n], rs[n]).1);
        }
      } else {
        ScanStops(subs[..n], rs[..n]);
        ScanPassOn(subs, rs);
      }
    }
  }

  /** Once the loop has stopped, the children after that are not looked at. */
  lemma ScanPassOn(subs: seq<string>, rs: seq<Child>)
    requires |rs| == |subs| > 0
    requires var r := ScanChildren(subs[..|subs| - 1], rs[..|subs| - 1]); !(r.Ok? && r.value.Continue?)
    ensures ScanChildren(subs, rs) == ScanChildren(subs[..|subs| - 1], rs[..|subs| - 1])
  {
  }

  /** A child that does not pass, after a loop that went through. */
  lemma ScanFail(subs: seq<string>, rs: seq<Child>, cmap: Assoc)
    requires |rs| == |subs| > 0
    requires ScanChildren(subs[..|subs| - 1], rs[..|subs| - 1]) == Ok(Continue(cmap))
    requires !Passed(rs[|subs| - 1])
    ensures ScanChildren(subs, rs) == Failed(rs[|subs| - 1])
  {
  }


  /** The shape of what `check_balance` returns: it raises only KeyError or
      RecursionError; its map holds each child once; a balanced result has
      at most one distinct weight, and an unbalanced one (the map of the
      disc where balance fails) at least two, so `find_unbalance_disc`
      finds two groups. */
  predicate Shaped(r: Result<(bool, Assoc)>) {
    (r.Err? ==> r.error == KeyError || r.error == RecursionError) &&
    (r.Ok? ==> DistinctKeys(r.value.1)) &&
    (r.Ok? && r.value.0 ==> |ValueSet(r.value.1)| <= 1) &&
    (r.Ok? && !r.value.0 ==> |ValueSet(r.value.1)| >= 2)
  }

  /** When every child's own result has that shape, so does the verdict. */
  lemma ScanShaped(subs: seq<string>, rs: seq<Child>)
    requires |rs| == |subs| > 0
    requires forall i :: 0 <= i < |rs| && rs[i].Checked? ==> Shaped(rs[i].result)
    ensures Shaped(Verdict(ScanChildren(subs, rs)))
  {
    ScanThrough(subs, rs);
    var r := ScanChildren(subs, rs);
    if r.Ok? && r.value.Continue? {
      ScanKeys(subs, rs, r.value.cmap);
      ValueSetNonEmpty(r.value.cmap);
    } else {
      ScanStops(subs, rs);
      var i :| 0 <= i < |subs| && !Passed(rs[i]) && r == Failed(rs[i]);
      FailedShaped(rs[i]);
    }
  }

  /** A child that does not pass hands on a result of that shape. */
  lemma FailedShaped(c: Child)
    requires !Passed(c) && (c.Checked? ==> Shaped(c.result))
    ensures Shaped(Verdict(Failed(c)))
  {
  }

  lemma {:induction false} BalanceShape(m: DiscMap, d: Disc, fuel: nat)
    ensures Shaped(Balance(m, d, fuel))
    decreases fuel
  {
    if HasChildren(d) && fuel > 0 {
      var rs := Checks(m, d, fuel - 1);
      forall i | 0 <= i < |rs| && rs[i].Checked? ensures Shaped(rs[i].result) {
        BalanceShape(m, m[d.subDiscs[i]], fuel - 1);
      }
      ScanShaped(d.subDiscs, rs);
    }
  }

  // ---------------------------------------------------------------------------
  // A reference definition of tower weights and of balance

  /** The total of the known weights in `ws`. */
  function SumKnown(ws: seq<Option<int>>): int
    decreases |ws|
  {
    if |ws| == 0 then 0 else SumKnown(ws[..|ws| - 1]) + OrZero(ws[|ws| - 1])
  }

  /** Every weight in `ws` is known. */
  predicate AllKnown(ws: seq<Option<int>>) {
    forall i :: 0 <= i < |ws| ==> ws[i].Some?
  }

  /** All of `ws` are the same. */
  predicate AllEqual(ws: seq<Option<int>>) {
    forall i, j :: 0 <= i < |ws| && 0 <= j < |ws| ==> ws[i] == ws[j]
  }

  /** The weight of the tower standing on `d`: its own weight and those of
      all the towers on its disc; unknown when a name is missing or the
      tower is deeper than `fuel`. */
  function Weight(m: DiscMap, d: Disc, fuel: nat): Option<int>
    decreases fuel, 0
  {
    if !HasChildren(d) then Some(d.weight)
    else if fuel == 0 then None
    else
      var ws := Weights(m, d, fuel - 1);
      if AllKnown(ws) then Some(d.weight + SumKnown(ws)) else None
  }

  /** The tower weight on each child of `d`. */
  function Weights(m: DiscMap, d: Disc, fuel: nat): (ws: seq<Option<int>>)
    ensures |ws| == |d.subDiscs|
    ensures forall i :: 0 <= i < |ws| ==>
      ws[i] == if d.subDiscs[i] in m then Weight(m, m[d.subDiscs[i]], fuel) else None
    decreases fuel, 1
  {
    seq(|d.subDiscs|, i requires 0 <= i < |d.subDiscs| =>
      if d.subDiscs[i] in m then Weight(m, m[d.subDiscs[i]], fuel) else None)
  }

  /** Every disc of the tower on `d` carries towers of one weight. */
  predicate Balanced(m: DiscMap, d: Disc, fuel: nat)
    decreases fuel
  {
    !HasChildren(d) ||
    (fuel > 0 &&
     var ws := Weights(m, d, fuel - 1);
     AllKnown(ws) && AllEqual(ws) &&
     forall i | 0 <= i < |d.subDiscs| :: d.subDiscs[i] in m && Balanced(m, m[d.subDiscs[i]], fuel - 1))
  }

  /** The tower on `d` is a tree: every program named is in the map, no
      sub-disc list repeats a name, and it is at most `fuel` discs deep. */
  predicate Tree(m: DiscMap, d: Disc, fuel: nat)
    decreases fuel
  {
    !HasChildren(d) ||
    (fuel > 0 && NoDuplicates(d.subDiscs) &&
     forall i | 0 <= i < |d.subDiscs| :: d.subDiscs[i] in m && Tree(m, m[d.subDiscs[i]], fuel - 1))
  }

  /** Every value of `a` is the same. */
  predicate SameValues(a: Assoc) {
    forall i, j :: 0 <= i < |a| && 0 <= j < |a| ==> a[i].1 == a[j].1
  }

  /** A non-empty dict has one distinct value exactly when all values agree. */
  lemma OneValue(a: Assoc)
    requires |a| > 0
    ensures OneWeight(a) <==> SameValues(a)
  {
    if SameValues(a) {
      assert ValueSet(a) == {a[0].1};
    } else {
      var i, j :| 0 <= i < |a| && 0 <= j < |a| && a[i].1 != a[j].1;
      assert {a[i].1, a[j].1} <= ValueSet(a);
      SubsetCard({a[i].1, a[j].1}, ValueSet(a));
    }
  }

  lemma SubsetCard(s: set<int>, t: set<int>)
    requires s <= t
    ensures |s| <= |t|
  {
    assert t == s + (t - s);
  }

  /** A dict whose values are the known weights `ws` sums to their total. */
  lemma {:induction false} SumsAgree(a: Assoc, ws: seq<Option<int>>)
    requires |a| == |ws| && forall i :: 0 <= i < |a| ==> ws[i] == Some(a[i].1)
    ensures SumValues(a) == SumKnown(ws)
    decreases |a|
  {
    if |a| > 0 {
      var n := |a| - 1;
      assert forall i :: 0 <= i < n ==> ws[..n][i] == ws[i] && a[..n][i] == a[i];
      SumsAgree(a[..n], ws[..n]);
    }
  }

  /** A child's `check_balance` result agrees with the reference: it raised
      nothing, reports `b` as its balance, and if balanced its tower weight
      is `w`. */
  predicate Agrees(r: Child, w: Option<int>, b: bool) {
    r.Checked? && r.result.Ok? && (r.result.value.0 <==> b) &&
    (b ==> w == Some(SumValues(r.result.value.1) + r.weight))
  }

  /** The loop over the children of one disc, against the reference: given
      that each child's own result is known, says whether the child is
      balanced (`bal`) and, if so, gives its tower weight (`ws`), the
      verdict is balanced exactly when every child is and all the tower
      weights agree, and its map then sums to their total. */
  lemma ScanAgrees(subs: seq<string>, rs: seq<Child>, ws: seq<Option<int>>, bal: seq<bool>)
    requires |rs| == |subs| == |ws| == |bal| > 0 && NoDuplicates(subs)
    requires forall i :: 0 <= i < |rs| ==> Agrees(rs[i], ws[i], bal[i])
    ensures Verdict(ScanChildren(subs, rs)).Ok?
    ensures Verdict(ScanChildren(subs, rs)).value.0 <==>
      (forall i :: 0 <= i < |bal| ==> bal[i]) && AllKnown(ws) && AllEqual(ws)
    ensures Verdict(ScanChildren(subs, rs)).value.0 ==>
      SumValues(Verdict(ScanChildren(subs, rs)).value.1) == SumKnown(ws)
  {
    ScanThrough(subs, rs);
    var r := ScanChildren(subs, rs);
    if r.Ok? && r.value.Continue? {
      var cmap := r.value.cmap;
      ScanEntries(subs, rs, cmap);
      assert forall i :: 0 <= i < |ws| ==> ws[i] == Some(cmap[i].1);
      OneValue(cmap);
      SumsAgree(cmap, ws);
    } else {
      ScanStops(subs, rs);
      var i :| 0 <= i < |subs| && !Passed(rs[i]) && r == Failed(rs[i]);
      assert !bal[i];
    }
  }

  /** `check_balance` agrees with the reference on every tree: it raises
      nothing, reports balance exactly when every disc is balanced, and
      then the tower weight is the disc's weight plus the sum of its map. */
  lemma {:induction false} BalanceReference(m: DiscMap, d: Disc, fuel: nat)
    requires Tree(m, d, fuel)
    ensures Balance(m, d, fuel).Ok?
    ensures Balance(m, d, fuel).value.0 <==> Balanced(m, d, fuel)
    ensures Balance(m, d, fuel).value.0 ==>
      Weight(m, d, fuel) == Some(d.weight + SumValues(Balance(m, d, fuel).value.1))
    decreases fuel
  {
    if HasChildren(d) {
      var subs := d.subDiscs;
      var rs, ws := Checks(m, d, fuel - 1), Weights(m, d, fuel - 1);
      var bal := seq(|subs|, i requires 0 <= i < |subs| => subs[i] in m && Balanced(m, m[subs[i]], fuel - 1));
      forall i | 0 <= i < |subs|
        ensures Agrees(rs[i], ws[i], bal[i])
      {
        BalanceReference(m, m[subs[i]], fuel - 1);
      }
      BalanceLevel(m, d, fuel, rs, ws, bal);
    }
  }

  /** One level of the reference theorem, from what it says of the children. */
  lemma BalanceLevel(m: DiscMap, d: Disc, fuel: nat, rs: seq<Child>, ws: seq<Option<int>>, bal: seq<bool>)
    requires HasChildren(d) && fuel > 0 && NoDuplicates(d.subDiscs)
    requires rs == Checks(m, d, fuel - 1) && ws == Weights(m, d, fuel - 1)
    requires |bal| == |d.subDiscs| && forall i :: 0 <= i < |bal| ==>
      (bal[i] <==> d.subDiscs[i] in m && Balanced(m, m[d.subDiscs[i]], fuel - 1))
    requires forall i :: 0 <= i < |rs| ==> Agrees(rs[i], ws[i], bal[i])
    ensures Balance(m, d, fuel).Ok?
    ensures Balance(m, d, fuel).value.0 <==> Balanced(m, d, fuel)
    ensures Balance(m, d, fuel).value.0 ==>
      Weight(m, d, fuel) == Some(d.weight + SumValues(Balance(m, d, fuel).value.1))
  {
    ScanAgrees(d.subDiscs, rs, ws, bal);
    BalanceUnfold(m, d, fuel, rs);
    ReferenceUnfold(m, d, fuel, ws, bal);
  }

  /** One level of `check_balance`. */
  lemma BalanceUnfold(m: DiscMap, d: Disc, fuel: nat, rs: seq<Child>)
    requires HasChildren(d) && fuel > 0 && rs == Checks(m, d, fuel - 1)
    ensures Balance(m, d, fuel) == Verdict(ScanChildren(d.subDiscs, rs))
  {
  }

  /** One level of the reference definitions, with the children's tower
      weights `ws` and balance `bal` given. */
  lemma ReferenceUnfold(m: DiscMap, d: Disc, fuel: nat, ws: seq<Option<int>>, bal: seq<bool>)
    requires HasChildren(d) && fuel > 0 && ws == Weights(m, d, fuel - 1)
    requires |bal| == |d.subDiscs| && forall i :: 0 <= i < |bal| ==>
      (bal[i] <==> d.subDiscs[i] in m && Balanced(m, m[d.subDiscs[i]], fuel - 1))
    ensures Balanced(m, d, fuel) <==> (forall i :: 0 <= i < |bal| ==> bal[i]) && AllKnown(ws) && AllEqual(ws)
    ensures AllKnown(ws) ==> Weight(m, d, fuel) == Some(d.weight + SumKnown(ws))
  {
  }

  // ---------------------------------------------------------------------------
  // find_unbalance_disc

  /** `weight_count`: each total weight with the discs that have it, in the
      order the weights first occur. */
  type Groups = seq<(int, seq<string>)>

  /** The place of weight `v` in `weight_count`, if it is there. */
  function GroupIndex(gs: Groups, v: int): (r: Option<nat>)
    ensures r.Some? ==> r.value < |gs| && gs[r.value].0 == v
    ensures r.None? ==> forall j :: 0 <= j < |gs| ==> gs[j].0 != v
    decreases |gs|
  {
    if |gs| == 0 then None
    else if gs[0].0 == v then Some(0)
    else match GroupIndex(gs[1..], v) case None => None case Some(i) => Some(i + 1)
  }

  /** One entry `key: value` of the loop over `disc_weight.items()`. */
  function AddToGroup(gs: Groups, k: string, v: int): Groups {
    match GroupIndex(gs, v)
    case None => gs + [(v, [k])]
    case Some(p) => gs[p := (v, gs[p].1 + [k])]
  }

  /** `weight_count` after the loop over the entries `a`; no group is empty. */
  function GroupsOf(a: Assoc): (gs: Groups)
    ensures forall p :: 0 <= p < |gs| ==> |gs[p].1| > 0
    decreases |a|
  {
    if |a| == 0 then [] else AddToGroup(GroupsOf(a[..|a| - 1]), a[|a| - 1].0, a[|a| - 1].1)
  }

  /** The keys of `a` whose value is `v`, in order. */
  function KeysWith(a: Assoc, v: int): seq<string>
    decreases |a|
  {
    if |a| == 0 then []
    else KeysWith(a[..|a| - 1], v) + (if a[|a| - 1].1 == v then [a[|a| - 1].0] else [])
  }

  /** Every key listed under `v` is an entry `key: v` of `a`. */
  lemma {:induction false} KeysWithEntries(a: Assoc, v: int)
    ensures forall j :: 0 <= j < |KeysWith(a, v)| ==> (KeysWith(a, v)[j], v) in a
    decreases |a|
  {
    if |a| > 0 {
      var n := |a| - 1;
      KeysWithEntries(a[..n], v);
      assert forall x :: x in a[..n] ==> x in a;
    }
  }

  /** A value no entry has lists no key. */
  lemma {:induction false} KeysWithNone(a: Assoc, v: int)
    requires forall i :: 0 <= i < |a| ==> a[i].1 != v
    ensures KeysWith(a, v) == []
    decreases |a|
  {
    if |a| > 0 {
      var n := |a| - 1;
      assert forall i :: 0 <= i < n ==> a[..n][i] == a[i];
      KeysWithNone(a[..n], v);
    }
  }

  /** The grouping of the source: each group lists exactly the keys with its
      weight, in order; no weight has two groups; every weight has one. */
  lemma {:induction false} GroupsSpec(a: Assoc)
    ensures GroupsRight(a, GroupsOf(a))
    decreases |a|
  {
    if |a| > 0 {
      var n := |a| - 1;
      var pre := a[..n];
      assert a == pre + [(a[n].0, a[n].1)];
      GroupsSpec(pre);
      AddRight(pre, a[n].0, a[n].1, GroupsOf(pre));
    }
  }

  /** `gs` is the grouping of `a` by value. */
  predicate GroupsRight(a: Assoc, gs: Groups) {
    (forall p :: 0 <= p < |gs| ==> gs[p].1 == KeysWith(a, gs[p].0)) &&
    (forall p, q :: 0 <= p < q < |gs| ==> gs[p].0 != gs[q].0) &&
    (forall i :: 0 <= i < |a| ==> GroupIndex(gs, a[i].1).Some?)
  }

  /** One more entry, at the end. */
  lemma KeysWithLast(pre: Assoc, k: string, v: int, w: int)
    ensures KeysWith(pre + [(k, v)], w) == KeysWith(pre, w) + (if w == v then [k] else [])
  {
    assert (pre + [(k, v)])[..|pre|] == pre;
  }

  /** Adding one entry keeps the grouping right. */
  lemma AddRight(pre: Assoc, k: string, v: int, gs: Groups)
    requires GroupsRight(pre, gs)
    ensures GroupsRight(pre + [(k, v)], AddToGroup(gs, k, v))
  {
    AddKeys(pre, k, v, gs);
    AddDistinct(gs, k, v);
    AddCovers(pre, k, v, gs);
  }

  /** Each group of the longer dict still lists exactly its keys. */
  lemma AddKeys(pre: Assoc, k: string, v: int, gs: Groups)
    requires GroupsRight(pre, gs)
    ensures var a, next := pre + [(k, v)], AddToGroup(gs, k, v);
      forall p :: 0 <= p < |next| ==> next[p].1 == KeysWith(a, next[p].0)
  {
    var a, next := pre + [(k, v)], AddToGroup(gs, k, v);
    forall p | 0 <= p < |next|
      ensures next[p].1 == KeysWith(a, next[p].0)
    {
      KeysWithLast(pre, k, v, next[p].0);
      if GroupIndex(gs, v).None? && p == |gs| {
        forall i | 0 <= i < |pre|
          ensures pre[i].1 != v
        {
          var q := GroupIndex(gs, pre[i].1).value;
        }
        KeysWithNone(pre, v);
      }
    }
  }

  /** No weight gets a second group. */
  lemma AddDistinct(gs: Groups, k: string, v: int)
    requires forall p, q :: 0 <= p < q < |gs| ==> gs[p].0 != gs[q].0
    ensures var next := AddToGroup(gs, k, v);
      forall p, q :: 0 <= p < q < |next| ==> next[p].0 != next[q].0
  {
  }

  /** Every value of the longer dict still has a group. */
  lemma AddCovers(pre: Assoc, k: string, v: int, gs: Groups)
    requires forall i :: 0 <= i < |pre| ==> GroupIndex(gs, pre[i].1).Some?
    ensures var a, next := pre + [(k, v)], AddToGroup(gs, k, v);
      forall i :: 0 <= i < |a| ==> GroupIndex(next, a[i].1).Some?
  {
    var a, next := pre + [(k, v)], AddToGroup(gs, k, v);
    forall i | 0 <= i < |a|
      ensures GroupIndex(next, a[i].1).Some?
    {
      if i < |pre| {
        var p := GroupIndex(gs, pre[i].1).value;
        assert next[p].0 == gs[p].0;
      } else {
        match GroupIndex(gs, v)
        case None => assert next[|gs|].0 == v;
        case Some(p) => assert next[p].0 == v;
      }
    }
  }

  /** Under `sorted(..., key=len)`, which is stable, the first group other
      than `skip` among the first `n` whose list is shortest. */
  function Least(gs: Groups, skip: int, n: nat): (r: Option<nat>)
    requires n <= |gs|
    ensures r.None? <==> n == 0 || (n == 1 && skip == 0)
    ensures r.Some? ==> r.value < n && r.value != skip
    ensures r.Some? ==> forall j :: 0 <= j < n && j != skip ==> |gs[r.value].1| <= |gs[j].1|
    ensures r.Some? ==> forall j :: 0 <= j < r.value && j != skip ==> |gs[r.value].1| < |gs[j].1|
  {
    if n == 0 then None
    else
      var r := Least(gs, skip, n - 1);
      if n - 1 == skip then r
      else if r.None? || |gs[n - 1].1| < |gs[r.value].1| then Some(n - 1)
      else r
  }

  /** What `find_unbalance_disc` returns. */
  datatype Report = Report(name: string, weight: nat, totalWeight: int, weightDiff: int)

  /** `find_unbalance_disc(disc_weight)` against the disc map `m`: the first
      two groups after sorting by size, the first disc of the first one, and
      its disc looked up in `m`. */
  function Unbalance(m: DiscMap, a: Assoc): Result<Report> {
    var gs := GroupsOf(a);
    var first := Least(gs, -1, |gs|);
    if first.None? then Err(IndexError)
    else
      var second := Least(gs, first.value, |gs|);
      if second.None? then Err(IndexError)
      else
        var name := gs[first.value].1[0];
        if name !in m then Err(KeyError)
        else
          var unbalance := gs[first.value].0;
          Ok(Report(name, m[name].weight, unbalance, unbalance - gs[second.value].0))
  }

  /** At least two distinct weights are needed: with fewer, `sorted_count[1]`
      raises IndexError, and otherwise only a missing disc can raise. */
  lemma UnbalanceErrors(m: DiscMap, a: Assoc)
    ensures Unbalance(m, a) == Err(IndexError) <==> SameValues(a)
    ensures Unbalance(m, a).Err? ==> Unbalance(m, a).error in {IndexError, KeyError}
  {
    var gs := GroupsOf(a);
    GroupsSpec(a);
    if |gs| >= 2 {
      KeysWithEntries(a, gs[0].0);
      KeysWithEntries(a, gs[1].0);
      assert (gs[0].1[0], gs[0].0) in a && (gs[1].1[0], gs[1].0) in a;
      assert !SameValues(a);
    } else {
      forall i, j | 0 <= i < |a| && 0 <= j < |a|
        ensures a[i].1 == a[j].1
      {
        assert GroupIndex(gs, a[i].1).Some? && GroupIndex(gs, a[j].1).Some?;
      }
    }
  }

  /** The disc reported is the first one whose total weight occurs least
      often among the weights of `disc_weight`, and `weight_diff` compares
      it with another weight that does occur, so it is never zero. */
  lemma UnbalanceReport(m: DiscMap, a: Assoc)
    requires Unbalance(m, a).Ok?
    ensures var r := Unbalance(m, a).value;
      (r.name, r.totalWeight) in a && r.name in m && r.weight == m[r.name].weight &&
      |KeysWith(a, r.totalWeight)| > 0 && r.name == KeysWith(a, r.totalWeight)[0] &&
      (forall i :: 0 <= i < |a| ==> |KeysWith(a, r.totalWeight)| <= |KeysWith(a, a[i].1)|) &&
      r.weightDiff != 0 &&
      exists i :: 0 <= i < |a| && a[i].1 == r.totalWeight - r.weightDiff
  {
    var gs := GroupsOf(a);
    GroupsSpec(a);
    var u := Least(gs, -1, |gs|).value;
    var b := Least(gs, u, |gs|).value;
    KeysWithEntries(a, gs[u].0);
    KeysWithEntries(a, gs[b].0);
    assert (gs[b].1[0], gs[b].0) in a;
    var j :| 0 <= j < |a| && a[j] == (gs[b].1[0], gs[b].0);
    forall i | 0 <= i < |a|
      ensures |KeysWith(a, gs[u].0)| <= |KeysWith(a, a[i].1)|
    {
      var p := GroupIndex(gs, a[i].1).value;
    }
  }

  // ---------------------------------------------------------------------------
  // build_discs

  /** What the loop of `build_discs` leaves: `DISC_MAP`, the discs parsed so
      far, and the exception that stopped it, if a line did not match. */
  datatype Loaded = Loaded(discs: DiscMap, parsed: seq<Disc>, error: Option<Error>)

  /** Every line parsed on its own: parsing reads nothing but the line. */
  function Parsed(lines: seq<string>): (ps: seq<Result<Disc>>)
    ensures |ps| == |lines| && forall i :: 0 <= i < |lines| ==> ps[i] == ParseDisc(lines[i])
  {
    seq(|lines|, i requires 0 <= i < |lines| => ParseDisc(lines[i]))
  }

  /** The parsed lines stored in order, each disc under its name, up to the
      first line that did not match. */
  function Load(m: DiscMap, ps: seq<Result<Disc>>): Loaded
    decreases |ps|
  {
    if |ps| == 0 then Loaded(m, [], None)
    else
      var o := Load(m, ps[..|ps| - 1]);
      if o.error.Some? then o
      else
        match ps[|ps| - 1]
        case Err(e) => Loaded(o.discs, o.parsed, Some(e))
        case Ok(d) => Loaded(o.discs[d.name := d], o.parsed + [d], None)
  }

  /** `parent_discs`: the names of the discs parsed that have children. */
  function Parents(ds: seq<Disc>): set<string>
    decreases |ds|
  {
    if |ds| == 0 then {}
    else Parents(ds[..|ds| - 1]) + if HasChildren(ds[|ds| - 1]) then {ds[|ds| - 1].name} else {}
  }

  /** `child_discs`: every name in a sub-disc list. */
  function Children(ds: seq<Disc>): set<string>
    decreases |ds|
  {
    if |ds| == 0 then {}
    else Children(ds[..|ds| - 1]) + NameSet(ds[|ds| - 1].subDiscs)
  }

  /** `set(names)`. */
  function NameSet(names: seq<string>): (r: set<string>)
    ensures forall x :: x in r <==> x in names
  {
    set j | 0 <= j < |names| :: names[j]
  }

  /** The candidates for the root. */
  function Roots(ds: seq<Disc>): set<string> {
    Parents(ds) - Children(ds)
  }

  /** Without an exception every line was parsed, in order; with one, some
      line did not match. */
  lemma {:induction false} LoadParsed(m: DiscMap, ps: seq<Result<Disc>>)
    ensures var o := Load(m, ps);
      (o.error.None? <==> forall i :: 0 <= i < |ps| ==> ps[i].Ok?) &&
      (o.error.Some? ==> exists i :: 0 <= i < |ps| && ps[i] == Err(o.error.value)) &&
      (o.error.None? ==> |o.parsed| == |ps| && forall i :: 0 <= i < |ps| ==> ps[i] == Ok(o.parsed[i]))
    decreases |ps|
  {
    if |ps| > 0 {
      var n := |ps| - 1;
      LoadParsed(m, ps[..n]);
      assert forall i :: 0 <= i < n ==> ps[..n][i] == ps[i];
    }
  }

  /** A line that does not match stops the loop with AttributeError. */
  lemma LoadError(m: DiscMap, lines: seq<string>)
    ensures var o := Load(m, Parsed(lines));
      o.error.Some? ==> o.error.value == AttributeError
  {
    LoadParsed(m, Parsed(lines));
  }

  /** The names of the discs `ds`. */
  function Names(ds: seq<Disc>): set<string> {
    set i | 0 <= i < |ds| :: ds[i].name
  }

  lemma NamesLast(ds: seq<Disc>, d: Disc)
    ensures Names(ds + [d]) == Names(ds) + {d.name}
  {
    var e := ds + [d];
    assert forall i :: 0 <= i < |ds| ==> e[i] == ds[i];
    assert e[|ds|] == d;
  }

  /** One more disc stored. */
  lemma LoadLast(m: DiscMap, ps: seq<Result<Disc>>)
    requires |ps| > 0 && Load(m, ps[..|ps| - 1]).error.None? && ps[|ps| - 1].Ok?
    ensures var o, d := Load(m, ps[..|ps| - 1]), ps[|ps| - 1].value;
      Load(m, ps) == Loaded(o.discs[d.name := d], o.parsed + [d], None)
  {
  }

  /** `DISC_MAP` keeps what it had and gains the name of every disc parsed. */
  lemma {:induction false} LoadKeys(m: DiscMap, ps: seq<Result<Disc>>)
    ensures Load(m, ps).discs.Keys == m.Keys + Names(Load(m, ps).parsed)
    decreases |ps|
  {
    if |ps| > 0 {
      var n := |ps| - 1;
      LoadKeys(m, ps[..n]);
      var o := Load(m, ps[..n]);
      if o.error.None? && ps[n].Ok? {
        LoadLast(m, ps);
        NamesLast(o.parsed, ps[n].value);
      }
    }
  }

  /** A name no line defines keeps its old disc. */
  lemma {:induction false} LoadKeeps(m: DiscMap, ps: seq<Result<Disc>>, k: string)
    requires k in m && k !in Names(Load(m, ps).parsed)
    ensures k in Load(m, ps).discs && Load(m, ps).discs[k] == m[k]
    decreases |ps|
  {
    if |ps| > 0 {
      var n := |ps| - 1;
      var o := Load(m, ps[..n]);
      if o.error.None? && ps[n].Ok? {
        LoadLast(m, ps);
        NamesLast(o.parsed, ps[n].value);
      }
      LoadKeeps(m, ps[..n], k);
    }
  }

  /** Every disc parsed is stored under its own name. */
  lemma {:induction false} LoadNamed(m: DiscMap, ps: seq<Result<Disc>>)
    ensures var o := Load(m, ps);
      forall i :: 0 <= i < |o.parsed| ==> o.parsed[i].name in o.discs && o.discs[o.parsed[i].name].name == o.parsed[i].name
    decreases |ps|
  {
    if |ps| > 0 {
      var n := |ps| - 1;
      LoadNamed(m, ps[..n]);
      var o := Load(m, ps[..n]);
      if o.error.None? && ps[n].Ok? {
        LoadLast(m, ps);
        var d := ps[n].value;
        var ds := o.parsed + [d];
        forall i | 0 <= i < |ds|
          ensures ds[i].name in o.discs[d.name := d] && o.discs[d.name := d][ds[i].name].name == ds[i].name
        {
          if i < |o.parsed| {
            assert ds[i] == o.parsed[i];
          }
        }
      }
    }
  }

  /** A name parsed on no later line holds the disc parsed for it. */
  lemma {:induction false} LoadLastWins(m: DiscMap, ps: seq<Result<Disc>>, i: nat)
    requires var ds := Load(m, ps).parsed;
      i < |ds| && forall j :: i < j < |ds| ==> ds[j].name != ds[i].name
    ensures var o := Load(m, ps); o.parsed[i].name in o.discs && o.discs[o.parsed[i].name] == o.parsed[i]
    decreases |ps|
  {
    var n := |ps| - 1;
    var o := Load(m, ps[..n]);
    if o.error.None? && ps[n].Ok? {
      LoadLast(m, ps);
      var ds := o.parsed + [ps[n].value];
      if i < |o.parsed| {
        assert forall j :: i < j < |o.parsed| ==> ds[j] == o.parsed[j];
        assert ds[i] == o.parsed[i] && ds[|o.parsed|] == ps[n].value;
        LoadLastWins(m, ps[..n], i);
      }
    } else {
      LoadLastWins(m, ps[..n], i);
    }
  }

  /** One more disc parsed. */
  lemma ParentsLast(ds: seq<Disc>, d: Disc)
    ensures Parents(ds + [d]) == Parents(ds) + if HasChildren(d) then {d.name} else {}
    ensures Children(ds + [d]) == Children(ds) + NameSet(d.subDiscs)
  {
    assert (ds + [d])[..|ds|] == ds;
  }

  /** The names of parents and children, described directly. */
  lemma {:induction false} ParentsChildren(ds: seq<Disc>, x: string)
    ensures x in Parents(ds) <==> exists i :: 0 <= i < |ds| && HasChildren(ds[i]) && ds[i].name == x
    ensures x in Children(ds) <==> exists i :: 0 <= i < |ds| && x in ds[i].subDiscs
    decreases |ds|
  {
    if |ds| > 0 {
      var n := |ds| - 1;
      ParentsChildren(ds[..n], x);
      assert forall i :: 0 <= i < n ==> ds[..n][i] == ds[i];
    }
  }

  /** The root `build_discs` returns is a disc parsed from the input that
      has children and occurs in no sub-disc list; it is the one parsed
      when no name is on two lines. */
  lemma RootFacts(m: DiscMap, ps: seq<Result<Disc>>, root: string)
    requires Load(m, ps).error.None? && root in Roots(Load(m, ps).parsed)
    ensures var o := Load(m, ps);
      root in o.discs && o.discs[root].name == root &&
      (forall i :: 0 <= i < |o.parsed| ==> root !in o.parsed[i].subDiscs) &&
      ((forall i, j :: 0 <= i < j < |o.parsed| ==> o.parsed[i].name != o.parsed[j].name) ==>
        HasChildren(o.discs[root]) && exists i :: 0 <= i < |o.parsed| && o.discs[root] == o.parsed[i])
  {
    var o := Load(m, ps);
    ParentsChildren(o.parsed, root);
    LoadNamed(m, ps);
    var i :| 0 <= i < |o.parsed| && HasChildren(o.parsed[i]) && o.parsed[i].name == root;
    if forall i, j :: 0 <= i < j < |o.parsed| ==> o.parsed[i].name != o.parsed[j].name {
      LoadLastWins(m, ps, i);
    }
  }

  /** The tower's state: `DISC_MAP`. */
  class Circus {
    var discs: DiscMap

    constructor ()
      ensures discs == map[]
    {
      discs := map[];
    }

    /** `build_discs(input_data)`: parse every line into `DISC_MAP` and return
        the disc that has children and stands on no other; which one, if
        several qualify, is left open, as `set.pop` leaves it. */
    method BuildDiscs(inputData: seq<string>) returns (r: Result<Disc>)
      modifies this
      ensures var o := Load(old(discs), Parsed(inputData));
        discs == o.discs &&
        (o.error.Some? ==> r == Err(o.error.value)) &&
        (o.error.None? && Roots(o.parsed) == {} ==> r == Err(KeyError)) &&
        (o.error.None? && Roots(o.parsed) != {} ==>
          r.Ok? && r.value.name in Roots(o.parsed) && r.value.name in discs && r.value == discs[r.value.name])
    {
      ghost var m0 := discs;
      var parentDiscs, childDiscs, error, parsed := StoreDiscs(inputData);
      if error.Some? {
        return Err(error.value);
      }
      var roots := parentDiscs - childDiscs;
      if roots == {} {
        return Err(KeyError);
      }
      var root :| root in roots;
      RootFacts(m0, Parsed(inputData), root);
      return Ok(discs[root]);
    }

    /** The loop of `build_discs`: every line is parsed and its disc stored
        under its name, and the names of the discs with children and of those
        children are collected; the first line that does not parse stops it. */
    method StoreDiscs(inputData: seq<string>)
      returns (parentDiscs: set<string>, childDiscs: set<string>, error: Option<Error>, ghost parsed: seq<Disc>)
      modifies this
      ensures Load(old(discs), Parsed(inputData)) == Loaded(discs, parsed, error)
      ensures parentDiscs == Parents(parsed) && childDiscs == Children(parsed)
    {
      ghost var m0 := discs;
      ghost var ps := Parsed(inputData);
      parentDiscs := {};
      childDiscs := {};
      parsed := [];
      for i := 0 to |inputData|
        invariant Load(m0, ps[..i]) == Loaded(discs, parsed, None)
        invariant parentDiscs == Parents(parsed) && childDiscs == Children(parsed)
      {
        assert ps[..i + 1][..i] == ps[..i];
        var matches := ParseDisc(inputData[i]);
        assert matches == ps[i];
        if matches.Err? {
          LoadFails(m0, ps, i + 1);
          return parentDiscs, childDiscs, Some(matches.error), parsed;
        }
        var disc := matches.value;
        LoadLast(m0, ps[..i + 1]);
        ParentsLast(parsed, disc);
        discs := discs[disc.name := disc];
        parsed := parsed + [disc];
        if HasChildren(disc) {
          parentDiscs := parentDiscs + {disc.name};
          childDiscs := childDiscs + NameSet(disc.subDiscs);
        }
      }
      assert ps[..|inputData|] == ps;
      error := None;
    }

    /** `find_unbalance_disc(disc_weight)`, reading `DISC_MAP`. */
    method FindUnbalanceDisc(discWeight: Assoc) returns (r: Result<Report>)
      ensures r == Unbalance(discs, discWeight)
    {
      var weightCount: Groups := [];
      for i := 0 to |discWeight|
        invariant weightCount == GroupsOf(discWeight[..i])
      {
        assert discWeight[..i + 1][..i] == discWeight[..i];
        var (key, value) := discWeight[i];
        var p := GroupIndex(weightCount, value);
        if p.Some? {
          weightCount := weightCount[p.value := (value, weightCount[p.value].1 + [key])];
        } else {
          weightCount := weightCount + [(value, [key])];
        }
      }
      assert discWeight[..|discWeight|] == discWeight;
      var first := Least(weightCount, -1, |weightCount|);
      if first.None? {
        return Err(IndexError);
      }
      var second := Least(weightCount, first.value, |weightCount|);
      if second.None? {
        return Err(IndexError);
      }
      var (unbalanceWeight, unbalanceDisc) := weightCount[first.value];
      var (balanceWeight, _) := weightCount[second.value];
      var discName := unbalanceDisc[0];
      if discName !in discs {
        return Err(KeyError);
      }
      var disc := discs[discName];
      return Ok(Report(discName, disc.weight, unbalanceWeight, unbalanceWeight - balanceWeight));
    }
  }

  /** Once a line has failed, later lines change nothing. */
  lemma {:induction false} LoadFails(m: DiscMap, ps: seq<Result<Disc>>, k: nat)
    requires k <= |ps| && Load(m, ps[..k]).error.Some?
    ensures Load(m, ps) == Load(m, ps[..k])
    decreases |ps| - k
  {
    if k < |ps| {
      assert ps[..|ps| - 1][..k] == ps[..k];
      LoadFails(m, ps[..|ps| - 1], k);
    } else {
      assert ps[..k] == ps;
    }
  }
}
