/** Alchemical reduction (2018 day 5): a polymer is a string of units; two
    adjacent units of the same type (letter) and opposite polarity (case)
    destroy each other.  `reduce` reacts a polymer fully with a stack, and
    `find_shorest_polymer` looks for the unit type whose removal leaves the
    shortest fully reacted polymer. */
module AlchemicalReduction {
  import opened Wrappers
  import opened Text

  // ---------------------------------------------------------------------------
  // reduce

  /** `c.upper() == ignore_unit.upper()`: the default `''` (here `None`)
      matches no unit. */
  predicate Ignored(c: char, ignoreUnit: Option<char>) {
    ignoreUnit.Some? && Upper(c) == Upper(ignoreUnit.value)
  }

  /** `c != last and c.upper() == last.upper()`: same type, other polarity. */
  predicate Reacts(a: char, b: char) {
    a != b && Upper(a) == Upper(b)
  }

  /** One turn of the loop of `reduce`: an ignored unit is skipped, a unit
      reacting with the top of the stack pops it, any other is pushed. */
  function Push(stack: string, c: char, ignoreUnit: Option<char>): string {
    if Ignored(c, ignoreUnit) then stack
    else if |stack| > 0 && Reacts(c, stack[|stack| - 1]) then stack[..|stack| - 1]
    else stack + [c]
  }

  /** The stack after pushing the units of `polymer`, left to right, onto `stack`. */
  function ReduceOnto(stack: string, polymer: string, ignoreUnit: Option<char>): string
  {
    if |polymer| == 0 then stack
    else Push(ReduceOnto(stack, polymer[..|polymer| - 1], ignoreUnit), polymer[|polymer| - 1], ignoreUnit)
  }

  /** The stack after the units of `polymer`, from an empty one. */
  function Reduce(polymer: string, ignoreUnit: Option<char>): string
  {
    ReduceOnto("", polymer, ignoreUnit)
  }

  /** The units of `polymer` that are not ignored, in order. */
  function Kept(polymer: string, ignoreUnit: Option<char>): (r: string)
    ensures |r| <= |polymer|
  {
    if |polymer| == 0 then ""
    else
      var c := polymer[|polymer| - 1];
      Kept(polymer[..|polymer| - 1], ignoreUnit) + (if Ignored(c, ignoreUnit) then "" else [c])
  }

  /** The units at `i` and `i + 1` do not react. */
  predicate QuietAt(s: string, i: nat)
    requires i + 1 < |s|
  {
    !Reacts(s[i], s[i + 1])
  }

  /** No two adjacent units react. */
  predicate Inert(s: string) {
    forall i: nat :: i + 1 < |s| ==> QuietAt(s, i)
  }

  /** No unit of the ignored type is left. */
  predicate Clean(s: string, ignoreUnit: Option<char>) {
    forall i :: 0 <= i < |s| ==> !Ignored(s[i], ignoreUnit)
  }

  /** `reduce(polymer, ignore_unit)`, with the `reduced` stack as a sequence. */
  method ReducePolymer(polymer: string, ignoreUnit: Option<char>) returns (r: string)
    ensures r == Reduce(polymer, ignoreUnit)
  {
    var reduced: string := [];
    for i := 0 to |polymer|
      invariant reduced == Reduce(polymer[..i], ignoreUnit)
    {
      assert polymer[..i + 1][..i] == polymer[..i];
      var c := polymer[i];
      if Ignored(c, ignoreUnit) {
        continue;
      }
      if |reduced| > 0 && c != reduced[|reduced| - 1] && Upper(c) == Upper(reduced[|reduced| - 1]) {
        reduced := reduced[..|reduced| - 1];
      } else {
        reduced := reduced + [c];
      }
    }
    assert polymer[..|polymer|] == polymer;
    return reduced;
  }

  /** The stack invariant: what `reduce` returns has no two adjacent units that
      react, and no unit of the ignored type. */
  lemma {:induction false} ReduceInert(polymer: string, ignoreUnit: Option<char>)
    ensures Inert(Reduce(polymer, ignoreUnit)) && Clean(Reduce(polymer, ignoreUnit), ignoreUnit)
    decreases |polymer|
  {
    if |polymer| > 0 {
      var stack := Reduce(polymer[..|polymer| - 1], ignoreUnit);
      ReduceInert(polymer[..|polymer| - 1], ignoreUnit);
      var c := polymer[|polymer| - 1];
      var t := Push(stack, c, ignoreUnit);
      assert t == Reduce(polymer, ignoreUnit);
      if Ignored(c, ignoreUnit) {
        assert t == stack;
      } else if |stack| > 0 && Reacts(c, stack[|stack| - 1]) {
        assert t == stack[..|stack| - 1];
        forall i: nat | i + 1 < |t| ensures QuietAt(t, i) {
          assert QuietAt(stack, i);
        }
      } else {
        assert t == stack + [c];
        forall i: nat | i + 1 < |t| ensures QuietAt(t, i) {
          if i + 1 < |stack| {
            assert QuietAt(stack, i);
          } else {
            assert t[i] == stack[|stack| - 1] && t[i + 1] == c;
          }
        }
      }
    }
  }

  /** Every unit left comes from the polymer. */
  lemma {:induction false} ReduceUnits(polymer: string, ignoreUnit: Option<char>)
    ensures forall i :: 0 <= i < |Reduce(polymer, ignoreUnit)| ==> Reduce(polymer, ignoreUnit)[i] in polymer
    decreases |polymer|
  {
    if |polymer| > 0 {
      var front := polymer[..|polymer| - 1];
      ReduceUnits(front, ignoreUnit);
      var stack := Reduce(front, ignoreUnit);
      var c := polymer[|polymer| - 1];
      var t := Push(stack, c, ignoreUnit);
      assert t == Reduce(polymer, ignoreUnit);
      forall i | 0 <= i < |t| ensures t[i] in polymer {
        if i < |stack| && t[i] == stack[i] {
          assert stack[i] in front;
        } else {
          assert t[i] == c;
        }
      }
    }
  }

  /** Reactions destroy units in pairs: what is left is never longer than the
      units kept, and the difference is even. */
  lemma {:induction false} ReduceLength(polymer: string, ignoreUnit: Option<char>)
    ensures |Reduce(polymer, ignoreUnit)| <= |Kept(polymer, ignoreUnit)|
    ensures (|Kept(polymer, ignoreUnit)| - |Reduce(polymer, ignoreUnit)|) % 2 == 0
    decreases |polymer|
  {
    if |polymer| > 0 {
      ReduceLength(polymer[..|polymer| - 1], ignoreUnit);
    }
  }

  /** With the default `ignore_unit` every unit is kept. */
  lemma {:induction false} KeptAll(polymer: string)
    ensures Kept(polymer, None) == polymer
    decreases |polymer|
  {
    if |polymer| > 0 {
      KeptAll(polymer[..|polymer| - 1]);
      assert polymer[..|polymer| - 1] + [polymer[|polymer| - 1]] == polymer;
    }
  }

  /** An inert polymer without ignored units is left as it is. */
  lemma {:induction false} ReduceInertFixed(s: string, ignoreUnit: Option<char>)
    requires Inert(s) && Clean(s, ignoreUnit)
    ensures Reduce(s, ignoreUnit) == s
    decreases |s|
  {
    if |s| > 0 {
      var front := s[..|s| - 1];
      assert Clean(front, ignoreUnit) by {
        assert forall i :: 0 <= i < |front| ==> front[i] == s[i];
      }
      forall i: nat | i + 1 < |front| ensures QuietAt(front, i) {
        assert QuietAt(s, i);
      }
      ReduceInertFixed(front, ignoreUnit);
      var c := s[|s| - 1];
      assert !Ignored(c, ignoreUnit);
      if |front| > 0 {
        assert front[|front| - 1] == s[|s| - 2];
        assert QuietAt(s, |s| - 2);
      }
      assert Push(front, c, ignoreUnit) == front + [c];
      assert front + [c] == s;
    }
  }

  /** `reduce` is idempotent: `main` may feed the reduced polymer back in. */
  lemma ReduceIdempotent(polymer: string, ignoreUnit: Option<char>)
    ensures Reduce(Reduce(polymer, ignoreUnit), ignoreUnit) == Reduce(polymer, ignoreUnit)
  {
    ReduceInert(polymer, ignoreUnit);
    ReduceInertFixed(Reduce(polymer, ignoreUnit), ignoreUnit);
  }

  /** Only the type of `ignore_unit` matters, not its polarity. */
  lemma {:induction false} ReduceSameType(polymer: string, a: char, b: char)
    requires Upper(a) == Upper(b)
    ensures Reduce(polymer, Some(a)) == Reduce(polymer, Some(b))
    decreases |polymer|
  {
    if |polymer| > 0 {
      ReduceSameType(polymer[..|polymer| - 1], a, b);
    }
  }

  /** Reacting a polymer in two pieces: the second piece continues from the
      stack the first one left. */
  lemma {:induction false} ReduceOntoAppend(stack: string, a: string, b: string, ignoreUnit: Option<char>)
    ensures ReduceOnto(stack, a + b, ignoreUnit) == ReduceOnto(ReduceOnto(stack, a, ignoreUnit), b, ignoreUnit)
    decreases |b|
  {
    if |b| > 0 {
      assert (a + b)[..|a + b| - 1] == a + b[..|b| - 1];
      ReduceOntoAppend(stack, a, b[..|b| - 1], ignoreUnit);
    } else {
      assert a + b == a;
    }
  }

  // ---------------------------------------------------------------------------
  // find_shorest_polymer

  /** The written loop of `find_shorest_polymer` over the first `n` units:
      the types tried so far and the `shortest` kept.  `if not shortest` takes
      an empty reduction for "nothing found yet". */
  function ShortestAsWrittenUpTo(polymer: string, n: nat): (r: (set<char>, string))
    requires n <= |polymer|
    ensures r.1 == "" || exists k :: 0 <= k < n && r.1 == Reduce(polymer, Some(polymer[k]))
  {
    if n == 0 then ({}, "")
    else
      var prev := ShortestAsWrittenUpTo(polymer, n - 1);
      var c := polymer[n - 1];
      if Upper(c) in prev.0 then prev
      else
        var reduced := Reduce(polymer, Some(c));
        (prev.0 + {Upper(c)}, if prev.1 == "" || |prev.1| > |reduced| then reduced else prev.1)
  }

  /** The stacks of `reduce`, one after each unit: `stacks[k + 1]` is unit `k`
      pushed onto `stacks[k]`. */
  ghost predicate StackTrace(p: string, ignoreUnit: Option<char>, stacks: seq<string>) {
    && |stacks| == |p| + 1 && stacks[0] == ""
    && forall k :: 0 <= k < |p| ==> Push(stacks[k], p[k], ignoreUnit) == stacks[k + 1]
  }

  /** A trace of stacks ends in the reduction. */
  lemma {:induction false} TraceReduces(p: string, ignoreUnit: Option<char>, stacks: seq<string>, n: nat)
    requires StackTrace(p, ignoreUnit, stacks) && n <= |p|
    ensures Reduce(p[..n], ignoreUnit) == stacks[n]
  {
    if n > 0 {
      TraceReduces(p, ignoreUnit, stacks, n - 1);
      assert p[..n][..n - 1] == p[..n - 1];
    }
  }

  /** The worked example: `dabAcCaCBAcCcaDA` reacts to `dabCBAcaDA`. */
  lemma ExampleReduce(p: string)
    requires p == "dabAcCaCBAcCcaDA"
    ensures Reduce(p, None) == "dabCBAcaDA"
  {
    var stacks := ["", "d", "da", "dab", "dabA", "dabAc", "dabA", "dab", "dabC", "dabCB", "dabCBA", "dabCBAc", "dabCBA", "dabCBAc", "dabCBAca", "dabCBAcaD", "dabCBAcaDA"];
    forall k | 0 <= k < |p| ensures Push(stacks[k], p[k], None) == stacks[k + 1] {
      assert k == 0 || k == 1 || k == 2 || k == 3 || k == 4 || k == 5 || k == 6 || k == 7 || k == 8
          || k == 9 || k == 10 || k == 11 || k == 12 || k == 13 || k == 14 || k == 15;
    }
    TraceReduces(p, None, stacks, |p|);
    assert p[..|p|] == p;
  }

  /** The worked example without C/c: `dabAcCaCBAcCcaDA` reacts to `daDA`, of
      length 4. */
  lemma ExampleWithoutC(p: string)
    requires p == "dabAcCaCBAcCcaDA"
    ensures Reduce(p, Some('c')) == "daDA" && |Reduce(p, Some('c'))| == 4
  {
    var stacks := ["", "d", "da", "dab", "dabA", "dabA", "dabA", "dab", "dab", "da", "d", "d", "d", "d", "da", "daD", "daDA"];
    forall k | 0 <= k < |p| ensures Push(stacks[k], p[k], Some('c')) == stacks[k + 1] {
      assert k == 0 || k == 1 || k == 2 || k == 3 || k == 4 || k == 5 || k == 6 || k == 7 || k == 8
          || k == 9 || k == 10 || k == 11 || k == 12 || k == 13 || k == 14 || k == 15;
    }
    TraceReduces(p, Some('c'), stacks, |p|);
    assert p[..|p|] == p;
  }

  /** `find_shorest_polymer(polymer)` as written. */
  function ShortestAsWritten(polymer: string): (r: string)
    ensures r == "" || exists k :: 0 <= k < |polymer| && r == Reduce(polymer, Some(polymer[k]))
  {
    ShortestAsWrittenUpTo(polymer, |polymer|).1
  }

  /** `babA` is inert: it reduces to itself. */
  lemma BabAInert(p: string)
    requires p == "babA"
    ensures Reduce(p, None) == p
  {
    assert p == "ba" + "bA";
    ReduceOntoAppend("", "ba", "bA", None);
    assert ReduceOnto("", "ba", None) == "ba";
    assert ReduceOnto("ba", "bA", None) == "babA";
  }

  /** Without b/B, `babA` reduces to nothing. */
  lemma BabAWithoutB(p: string)
    requires p == "babA"
    ensures Reduce(p, Some('b')) == ""
  {
    assert p == "ba" + "bA";
    ReduceOntoAppend("", "ba", "bA", Some('b'));
    assert ReduceOnto("", "ba", Some('b')) == "a";
    assert ReduceOnto("a", "bA", Some('b')) == "";
  }

  /** Without a/A, `babA` reduces to `bb`. */
  lemma BabAWithoutA(p: string)
    requires p == "babA"
    ensures Reduce(p, Some('a')) == "bb"
  {
    assert p == "ba" + "bA";
    ReduceOntoAppend("", "ba", "bA", Some('a'));
    assert ReduceOnto("", "ba", Some('a')) == "b";
    assert ReduceOnto("b", "bA", Some('a')) == "bb";
  }

  /** As written, the search can miss the shortest polymer: on the inert
      polymer `babA`, removing b/B leaves nothing, but the empty result is then
      replaced by the next type's `bb`. */
  lemma AsWrittenMissesEmpty(p: string)
    requires p == "babA"
    ensures Reduce(p, None) == p
    ensures Reduce(p, Some('b')) == ""
    ensures ShortestAsWritten(p) == "bb"
  {
    BabAInert(p);
    BabAWithoutB(p);
    BabAWithoutA(p);
    assert p[0] == 'b' && p[1] == 'a' && p[2] == 'b' && p[3] == 'A';
    assert Upper('b') == 'B' && Upper('a') == 'A' && Upper('A') == 'A';
    assert ShortestAsWrittenUpTo(p, 0) == ({}, "");
    assert ShortestAsWrittenUpTo(p, 1) == ({} + {'B'}, "");
    assert ShortestAsWrittenUpTo(p, 2) == ({} + {'B'} + {'A'}, "bb");
    assert ShortestAsWrittenUpTo(p, 4) == ShortestAsWrittenUpTo(p, 3) == ShortestAsWrittenUpTo(p, 2);
  }

  /** The unit types, upper-cased, among the first `n` units. */
  function TypesUpTo(polymer: string, n: nat): (r: set<char>)
    requires n <= |polymer|
    ensures forall k :: 0 <= k < n ==> Upper(polymer[k]) in r
  {
    if n == 0 then {} else TypesUpTo(polymer, n - 1) + {Upper(polymer[n - 1])}
  }

  /** A type among the first `n` units is the type of one of them. */
  lemma {:induction false} TypeIndex(polymer: string, n: nat, u: char) returns (j: nat)
    requires n <= |polymer| && u in TypesUpTo(polymer, n)
    ensures j < n && Upper(polymer[j]) == u
  {
    if Upper(polymer[n - 1]) == u {
      j := n - 1;
    } else {
      j := TypeIndex(polymer, n - 1, u);
    }
  }

  /** `find_shorest_polymer(polymer)` with "nothing found yet" kept apart from
      an empty reduction: the reduction, over every unit type of the polymer,
      of least length (the first such in the polymer), and `''` for an empty
      polymer. */
  method FindShortestPolymer(polymer: string) returns (shortest: string)
    ensures |polymer| == 0 ==> shortest == ""
    ensures |polymer| > 0 ==> exists k :: 0 <= k < |polymer| && shortest == Reduce(polymer, Some(polymer[k]))
                                  && forall m :: 0 <= m < k ==> |Reduce(polymer, Some(polymer[m]))| > |shortest|
    ensures forall k :: 0 <= k < |polymer| ==> |shortest| <= |Reduce(polymer, Some(polymer[k]))|
  {
    var tried: set<char> := {};
    var best: Option<string> := None;
    for i := 0 to |polymer|
      invariant tried == TypesUpTo(polymer, i)
      invariant best.None? <==> i == 0
      invariant best.Some? ==> exists k :: 0 <= k < i && best.value == Reduce(polymer, Some(polymer[k]))
                                  && forall m :: 0 <= m < k ==> |Reduce(polymer, Some(polymer[m]))| > |best.value|
      invariant best.Some? ==> forall k :: 0 <= k < i ==> |best.value| <= |Reduce(polymer, Some(polymer[k]))|
    {
      var c := polymer[i];
      if Upper(c) in tried {
        var j := TypeIndex(polymer, i, Upper(c));
        ReduceSameType(polymer, polymer[j], c);
        continue;
      }
      tried := tried + {Upper(c)};
      var reduced := ReducePolymer(polymer, Some(c));
      if best.None? || |best.value| > |reduced| {
        best := Some(reduced);
      }
    }
    shortest := if best.Some? then best.value else "";
  }
}
