/** Subterranean sustainability (2018 day 12): a row of pots evolves by
    rewriting every five-pot window with a rule; the row is padded with empty
    pots as plants spread, and the answer is the sum of the numbers of the
    pots holding a plant, extrapolated once the sum grows steadily. */
module SubterraneanSustainability {
  import opened Wrappers
  import opened Text

  // ---------------------------------------------------------------------------
  // Rows of pots

  /** The pots as a string of '#' (a plant) and '.' (none), and the number of
      the pot the string starts at. */
  datatype Row = Row(pots: string, start: int)

  /** Which right-hand test the padding makes: the code's `pots[-5:-1]`, which
      never looks at the last pot, or `pots[-5:]`, which does. */
  datatype Edge = AsWritten | Corrected

  /** Every pot is '#' or '.'. */
  predicate Planted(pots: string) {
    forall i :: 0 <= i < |pots| ==> pots[i] == '#' || pots[i] == '.'
  }

  /** What pot number `p` holds: its character, and '.' beyond either end. */
  function At(row: Row, p: int): char {
    if row.start <= p < row.start + |row.pots| then row.pots[p - row.start] else '.'
  }

  /** The plants of two rows agree pot by pot. */
  ghost predicate SamePlants(a: Row, b: Row) {
    forall p :: At(a, p) == At(b, p)
  }

  /** No pot in `s` holds a plant. */
  predicate Empty(s: string) {
    forall i :: 0 <= i < |s| ==> s[i] != '#'
  }

  /** The last pot of the string is empty (or there is none). */
  predicate EndsEmpty(pots: string) {
    |pots| == 0 || pots[|pots| - 1] == '.'
  }

  /** The first five and the last five pots are '.'. */
  predicate Margined(pots: string) {
    forall i :: 0 <= i < |pots| && (i < 5 || i >= |pots| - 5) ==> pots[i] == '.'
  }

  // ---------------------------------------------------------------------------
  // count_pots_num

  /** `count_pots_num(pots, start_pot_num)`: the sum of the numbers of the pots
      that hold a plant. */
  function PotSum(pots: string, start: int): int
    decreases |pots|
  {
    if |pots| == 0 then 0
    else PotSum(pots[..|pots| - 1], start) + (if pots[|pots| - 1] == '#' then |pots| - 1 + start else 0)
  }

  /** How many pots hold a plant. */
  function Plants(pots: string): nat
    decreases |pots|
  {
    if |pots| == 0 then 0
    else Plants(pots[..|pots| - 1]) + (if pots[|pots| - 1] == '#' then 1 else 0)
  }

  /** Moving the whole row `d` pots to the right adds `d` for every plant. */
  lemma {:induction false} PotSumShift(pots: string, start: int, d: int)
    ensures PotSum(pots, start + d) == PotSum(pots, start) + d * Plants(pots)
    decreases |pots|
  {
    if |pots| > 0 {
      PotSumShift(pots[..|pots| - 1], start, d);
    }
  }

  /** Empty pots added after the row change nothing. */
  lemma {:induction false} PotSumAppendEmpty(pots: string, tail: string, start: int)
    requires Empty(tail)
    ensures PotSum(pots + tail, start) == PotSum(pots, start)
    decreases |tail|
  {
    if |tail| > 0 {
      var init := tail[..|tail| - 1];
      assert (pots + tail)[..|pots + tail| - 1] == pots + init;
      PotSumAppendEmpty(pots, init, start);
    } else {
      assert pots + tail == pots;
    }
  }

  /** Empty pots added in front, with the start moved back as far, change
      nothing. */
  lemma {:induction false} PotSumPrependEmpty(head: string, pots: string, start: int)
    requires Empty(head)
    ensures PotSum(head + pots, start - |head|) == PotSum(pots, start)
    decreases |pots|
  {
    if |pots| > 0 {
      var init := pots[..|pots| - 1];
      assert (head + pots)[..|head + pots| - 1] == head + init;
      PotSumPrependEmpty(head, init, start);
    } else {
      assert head + pots == head;
      PotSumAppendEmpty([], head, start - |head|);
      assert [] + head == head;
    }
  }

  // ---------------------------------------------------------------------------
  // add_pots_if_need

  /** Some pot from `lo` up to (not including) `hi` holds a plant: `'#' in
      s[lo:hi]`, looked at one pot at a time from the right. */
  predicate PlantIn(s: string, lo: int, hi: int)
    requires 0 <= lo && hi <= |s|
    decreases hi - lo
  {
    lo < hi && (s[hi - 1] == '#' || PlantIn(s, lo, hi - 1))
  }

  lemma {:induction false} PlantInMeaning(s: string, lo: int, hi: int)
    requires 0 <= lo <= hi <= |s|
    ensures PlantIn(s, lo, hi) <==> exists i :: lo <= i < hi && s[i] == '#'
    decreases hi - lo
  {
    if lo < hi {
      PlantInMeaning(s, lo, hi - 1);
    }
  }

  /** Where `pots[0:5]` ends, and where `pots[-5:]` starts, on `n` pots. */
  function FrontEnd(n: nat): nat { if n < 5 then n else 5 }
  function BackStart(n: nat): nat { if n < 5 then 0 else n - 5 }

  /** Where the right-hand test stops: `pots[-5:-1]` leaves out the last pot,
      `pots[-5:]` does not. */
  function BackEnd(n: nat, edge: Edge): nat {
    match edge
    case AsWritten => if n == 0 then 0 else n - 1
    case Corrected => n
  }

  /** `PlantIn` is Python's `'#' in s[lo:hi]`. */
  lemma PlantInSlice(s: string, lo: int, hi: int)
    requires 0 <= lo <= hi <= |s|
    ensures PlantIn(s, lo, hi) <==> '#' in s[lo..hi]
  {
    PlantInMeaning(s, lo, hi);
    if '#' in s[lo..hi] {
      var k :| 0 <= k < hi - lo && s[lo..hi][k] == '#';
      assert s[lo + k] == '#';
    }
  }

  /** The front test is Python's `'#' in pots[0:5]`. */
  lemma FrontTest(pots: string)
    ensures PlantIn(pots, 0, FrontEnd(|pots|)) <==> '#' in PySlice(pots, 0, 5)
  {
    PlantInSlice(pots, 0, FrontEnd(|pots|));
    assert PySlice(pots, 0, 5) == pots[0..FrontEnd(|pots|)];
  }

  /** The right-hand test is Python's `'#' in pots[-5:-1]`, or `'#' in
      pots[-5:]` when corrected. */
  lemma BackTest(pots: string)
    ensures PlantIn(pots, BackStart(|pots|), BackEnd(|pots|, AsWritten)) <==> '#' in PySlice(pots, -5, -1)
    ensures PlantIn(pots, BackStart(|pots|), BackEnd(|pots|, Corrected)) <==> '#' in PySlice(pots, -5, |pots|)
  {
    var n := |pots|;
    PlantInSlice(pots, BackStart(n), BackEnd(n, AsWritten));
    PlantInSlice(pots, BackStart(n), BackEnd(n, Corrected));
    assert PySlice(pots, -5, -1) == pots[BackStart(n)..BackEnd(n, AsWritten)];
    assert PySlice(pots, -5, n) == pots[BackStart(n)..BackEnd(n, Corrected)];
  }

  /** A plant among the first five pots. */
  predicate FrontPlant(pots: string) {
    PlantIn(pots, 0, FrontEnd(|pots|))
  }

  /** A plant among the pots the right-hand test looks at. */
  predicate BackPlant(pots: string, edge: Edge) {
    PlantIn(pots, BackStart(|pots|), BackEnd(|pots|, edge))
  }

  /** The row after the front padding. */
  function PadFront(row: Row): Row {
    if FrontPlant(row.pots) then Row(Gap + row.pots, row.start - 5) else row
  }

  /** `add_pots_if_need(pots, start_pot_num)`: five empty pots in front (and the
      start moved back by five) when a plant is among the first five, then five
      at the back when the right-hand test sees a plant. */
  function AddPots(row: Row, edge: Edge): (r: Row)
    ensures r.start == row.start - 5 <==> FrontPlant(row.pots)
    ensures r.start == row.start || r.start == row.start - 5
  {
    var mid := PadFront(row);
    if BackPlant(mid.pots, edge) then Row(mid.pots + Gap, mid.start) else mid
  }

  /** The five empty pots the padding adds. */
  const Gap: string := "....."

  /** Nothing but empty pots. */
  predicate Dots(s: string) {
    forall i :: 0 <= i < |s| ==> s[i] == '.'
  }

  /** Empty pots on either side move no plant. */
  lemma SurroundKeepsPlants(row: Row, head: string, tail: string)
    requires Dots(head) && Dots(tail)
    ensures SamePlants(Row(head + row.pots + tail, row.start - |head|), row)
  {
    var r := Row(head + row.pots + tail, row.start - |head|);
    forall p
      ensures At(r, p) == At(row, p)
    {
      var i := p - r.start;
      if 0 <= i < |r.pots| {
        if i < |head| {
          assert r.pots[i] == head[i];
        } else if i < |head| + |row.pots| {
          assert r.pots[i] == row.pots[i - |head|];
        } else {
          assert r.pots[i] == tail[i - |head| - |row.pots|];
        }
      }
    }
  }

  /** The padding as empty pots put either side of the row: five in front
      exactly when the front test sees a plant, five behind exactly when the
      right-hand test then does. */
  lemma PadSurrounds(row: Row, edge: Edge) returns (head: string, tail: string)
    ensures Dots(head) && Dots(tail)
    ensures head == (if FrontPlant(row.pots) then Gap else "")
    ensures tail == (if BackPlant(head + row.pots, edge) then Gap else "")
    ensures AddPots(row, edge) == Row(head + row.pots + tail, row.start - |head|)
  {
    head := if FrontPlant(row.pots) then Gap else "";
    assert PadFront(row).pots == head + row.pots;
    tail := if BackPlant(head + row.pots, edge) then Gap else "";
  }

  /** Padding moves no plant. */
  lemma PadKeepsPlants(row: Row, edge: Edge)
    ensures SamePlants(AddPots(row, edge), row)
  {
    var head, tail := PadSurrounds(row, edge);
    SurroundKeepsPlants(row, head, tail);
  }

  /** Surrounding a row of '#' and '.' by empty pots gives a row of '#' and '.'. */
  lemma SurroundPlanted(pots: string, head: string, tail: string)
    requires Planted(pots) && Dots(head) && Dots(tail)
    ensures Planted(head + pots + tail)
  {
    var q := head + pots + tail;
    forall i | 0 <= i < |q|
      ensures q[i] == '#' || q[i] == '.'
    {
      if i < |head| {
      } else if i < |head| + |pots| {
        assert q[i] == pots[i - |head|];
      } else {
        assert q[i] == tail[i - |head| - |pots|];
      }
    }
  }

  /** Padding a row of '#' and '.' gives a row of '#' and '.'. */
  lemma PadPlanted(row: Row, edge: Edge)
    requires Planted(row.pots)
    ensures Planted(AddPots(row, edge).pots)
  {
    var head, tail := PadSurrounds(row, edge);
    SurroundPlanted(row.pots, head, tail);
  }

  /** Padding leaves the pot sum as it was. */
  lemma PadKeepsSum(row: Row, edge: Edge)
    ensures PotSum(AddPots(row, edge).pots, AddPots(row, edge).start) == PotSum(row.pots, row.start)
  {
    var head, tail := PadSurrounds(row, edge);
    PotSumPrependEmpty(head, row.pots, row.start);
    PotSumAppendEmpty(head + row.pots, tail, row.start - |head|);
  }

  /** The pot the right-hand test would look at last is not a plant when the
      test saw none. */
  lemma QuietBack(mid: string, edge: Edge, i: int)
    requires !BackPlant(mid, edge) && Planted(mid)
    requires BackStart(|mid|) <= i < BackEnd(|mid|, edge)
    ensures mid[i] == '.'
  {
    PlantInMeaning(mid, BackStart(|mid|), BackEnd(|mid|, edge));
  }

  /** Whichever test the padding makes, it sees the last-but-one pot, so that
      pot is empty after padding. */
  lemma PadLastButOne(row: Row, edge: Edge)
    requires Planted(row.pots)
    ensures var q := AddPots(row, edge).pots;
      (|q| >= 2 ==> q[|q| - 2] == '.') && (|q| == 1 ==> q[0] == '.')
  {
    var head, tail := PadSurrounds(row, edge);
    var mid := head + row.pots;
    SurroundPlanted(row.pots, head, "");
    assert mid + "" == mid;
    if |mid| == 1 {
      assert row.pots == mid;
      PlantInMeaning(row.pots, 0, 1);
    }
    TailLastButOne(mid, tail, edge);
  }

  /** After the back padding of `mid`, the last-but-one pot is empty. */
  lemma TailLastButOne(mid: string, tail: string, edge: Edge)
    requires Planted(mid) && tail == (if BackPlant(mid, edge) then Gap else "")
    requires |mid| == 1 ==> mid[0] != '#'
    ensures var q := mid + tail;
      (|q| >= 2 ==> q[|q| - 2] == '.') && (|q| == 1 ==> q[0] == '.')
  {
    var q := mid + tail;
    if tail == "" {
      assert q == mid;
      if |mid| >= 2 {
        QuietBack(mid, edge, |mid| - 2);
      }
    } else {
      assert q[|q| - 2] == Gap[3];
    }
  }

  /** Five empty pots at either end. */
  lemma MarginsOf(mid: string, tail: string)
    requires Dots(tail) && (|tail| == 0 || |tail| == 5)
    requires forall i :: 0 <= i < |mid| && i < 5 ==> mid[i] == '.'
    requires |tail| == 0 ==> forall i :: 0 <= i < |mid| && i >= |mid| - 5 ==> mid[i] == '.'
    ensures Margined(mid + tail)
  {
    var q := mid + tail;
    forall i | 0 <= i < |q| && (i < 5 || i >= |q| - 5)
      ensures q[i] == '.'
    {
      if i >= |mid| {
        assert q[i] == tail[i - |mid|];
      }
    }
  }

  /** With the corrected test, a row of '#' and '.' comes out of the padding
      with five empty pots at either end (or with no plant at all). */
  lemma PadMargins(row: Row)
    requires Planted(row.pots)
    ensures Planted(AddPots(row, Corrected).pots)
    ensures Margined(AddPots(row, Corrected).pots)
  {
    PadPlanted(row, Corrected);
    var head, tail := PadSurrounds(row, Corrected);
    var mid := head + row.pots;
    var m := |mid|;
    SurroundPlanted(row.pots, head, "");
    assert mid + "" == mid;
    if head == "" {
      assert mid == row.pots;
      PlantInMeaning(row.pots, 0, FrontEnd(m));
    }
    forall i | 0 <= i < m && i < 5
      ensures mid[i] == '.'
    {
      if head != "" {
        assert mid[i] == Gap[i];
      }
    }
    forall i | 0 <= i < m && i >= m - 5 && tail == ""
      ensures mid[i] == '.'
    {
      QuietBack(mid, Corrected, i);
    }
    MarginsOf(mid, tail);
  }

  /** When the last pot is empty the two right-hand tests agree. */
  lemma PadAgrees(row: Row)
    requires EndsEmpty(row.pots)
    ensures AddPots(row, AsWritten) == AddPots(row, Corrected)
  {
    var mid := PadFront(row).pots;
    var m := |mid|;
    if m > 0 {
      assert mid[m - 1] == '.';
      assert BackPlant(mid, Corrected) == PlantIn(mid, BackStart(m), m - 1);
    }
  }

  // ---------------------------------------------------------------------------
  // One generation

  /** What a rule gives for a window: `rules.get(window)` when it is a
      non-empty string, and "." when there is none or it is empty. */
  function Outcome(rules: map<string, string>, window: string): (r: string)
    ensures |r| > 0
  {
    if window in rules && rules[window] != "" then rules[window] else "."
  }

  /** Every rule gives a single pot. */
  predicate RulesWellFormed(rules: map<string, string>) {
    forall w :: w in rules ==> rules[w] == "#" || rules[w] == "."
  }

  /** A window with no plant anywhere near gives no plant. */
  predicate QuietRule(rules: map<string, string>) {
    Outcome(rules, ".....") == "."
  }

  lemma OutcomeSingle(rules: map<string, string>, window: string)
    requires RulesWellFormed(rules)
    ensures Outcome(rules, window) == "#" || Outcome(rules, window) == "."
  {}

  /** `growed_pots` after the loop has reached position `k`: the first two
      pots, then the rule outcomes for positions 2 .. k-1. */
  function Grown(pots: string, rules: map<string, string>, k: int): string
    requires 2 <= k && (k == 2 || k <= |pots| - 2)
    decreases k
  {
    if k == 2 then PySlice(pots, 0, 2) else Grown(pots, rules, k - 1) + Outcome(rules, pots[k - 3..k + 2])
  }

  /** The generation body of `grow`: the first two pots copied, every pot from
      2 to `len - 3` rewritten by its window, then `pots[-2:-1]`. */
  function Generation(pots: string, rules: map<string, string>): string {
    Grown(pots, rules, if |pots| >= 4 then |pots| - 2 else 2) + PySlice(pots, -2, -1)
  }

  /** The loop of the generation body, written out. */
  method NextGeneration(pots: string, rules: map<string, string>) returns (grown: string)
    ensures grown == Generation(pots, rules)
  {
    grown := PySlice(pots, 0, 2);
    var i := 2;
    while i < |pots| - 2
      invariant 2 <= i && (i == 2 || i <= |pots| - 2)
      invariant grown == Grown(pots, rules, i)
    {
      var window := pots[i - 2..i + 3];
      if window in rules && rules[window] != "" {
        grown := grown + rules[window];
      } else {
        grown := grown + ".";
      }
      i := i + 1;
    }
    grown := grown + PySlice(pots, -2, -1);
  }

  lemma {:induction false} GrownShape(pots: string, rules: map<string, string>, k: int)
    requires RulesWellFormed(rules) && |pots| >= 4
    requires 2 <= k <= |pots| - 2
    ensures |Grown(pots, rules, k)| == k
    ensures Grown(pots, rules, k)[0] == pots[0] && Grown(pots, rules, k)[1] == pots[1]
    ensures forall j :: 2 <= j < k ==> Grown(pots, rules, k)[j] == Outcome(rules, pots[j - 2..j + 3])[0]
    decreases k
  {
    if k > 2 {
      var prev := Grown(pots, rules, k - 1);
      var o := Outcome(rules, pots[k - 3..k + 2]);
      GrownShape(pots, rules, k - 1);
      OutcomeSingle(rules, pots[k - 3..k + 2]);
      assert Grown(pots, rules, k) == prev + o && |o| == 1;
      forall j | 2 <= j < k
        ensures (prev + o)[j] == Outcome(rules, pots[j - 2..j + 3])[0]
      {
        if j < k - 1 {
          assert (prev + o)[j] == prev[j];
        }
      }
    } else {
      assert PySlice(pots, 0, 2) == pots[..2];
    }
  }

  /** On at least four pots a generation is one pot shorter: it keeps the first
      two, rewrites the middle ones by their windows, and ends with the old
      last-but-one pot. */
  lemma GenerationShape(pots: string, rules: map<string, string>)
    requires RulesWellFormed(rules) && |pots| >= 4
    ensures var g := Generation(pots, rules);
      |g| == |pots| - 1 && g[0] == pots[0] && g[1] == pots[1] && g[|pots| - 2] == pots[|pots| - 2] &&
      forall i :: 2 <= i < |pots| - 2 ==> g[i] == Outcome(rules, pots[i - 2..i + 3])[0]
  {
    var n := |pots|;
    GrownShape(pots, rules, n - 2);
    assert PySlice(pots, -2, -1) == [pots[n - 2]];
  }

  /** Fewer than four pots are copied, with the last-but-one pot repeated. */
  lemma GenerationShort(pots: string, rules: map<string, string>)
    requires |pots| < 4
    ensures Generation(pots, rules) == if |pots| >= 2 then pots[..2] + [pots[|pots| - 2]] else pots
  {
    var n := |pots|;
    if n >= 2 {
      assert PySlice(pots, 0, 2) == pots[..2];
      assert PySlice(pots, -2, -1) == [pots[n - 2]];
    } else {
      assert PySlice(pots, 0, 2) == pots;
      assert PySlice(pots, -2, -1) == [];
    }
  }

  /** A generation of '#' and '.' is again '#' and '.', and ends in an empty
      pot when its last-but-one pot was. */
  lemma GenerationPlanted(pots: string, rules: map<string, string>)
    requires RulesWellFormed(rules) && Planted(pots)
    ensures Planted(Generation(pots, rules))
    ensures |pots| >= 2 && pots[|pots| - 2] == '.' ==> EndsEmpty(Generation(pots, rules))
    ensures |pots| < 2 ==> Generation(pots, rules) == pots
  {
    var n := |pots|;
    var g := Generation(pots, rules);
    if n >= 4 {
      GenerationShape(pots, rules);
      forall i | 0 <= i < |g| ensures g[i] == '#' || g[i] == '.' {
        if 2 <= i < n - 2 {
          OutcomeSingle(rules, pots[i - 2..i + 3]);
        }
      }
    } else {
      GenerationShort(pots, rules);
    }
  }

  // ---------------------------------------------------------------------------
  // The rule on an unbounded row

  /** The five pots centred on pot `p`. */
  function Window(row: Row, p: int): string {
    [At(row, p - 2), At(row, p - 1), At(row, p), At(row, p + 1), At(row, p + 2)]
  }

  /** What pot `p` holds in the next generation of the puzzle's unbounded row. */
  function NextAt(row: Row, rules: map<string, string>, p: int): char {
    Outcome(rules, Window(row, p))[0]
  }

  /** Pot `p` after `g` generations of the unbounded row. */
  function Evolve(row: Row, rules: map<string, string>, g: nat, p: int): char
    decreases g, 1
  {
    if g == 0 then At(row, p) else Outcome(rules, Near(row, rules, g - 1, p))[0]
  }

  function Near(row: Row, rules: map<string, string>, g: nat, p: int): string
    decreases g, 2
  {
    [Evolve(row, rules, g, p - 2), Evolve(row, rules, g, p - 1), Evolve(row, rules, g, p),
     Evolve(row, rules, g, p + 1), Evolve(row, rules, g, p + 2)]
  }

  lemma SameWindows(a: Row, b: Row, p: int)
    requires SamePlants(a, b)
    ensures Window(a, p) == Window(b, p)
  {}

  /** Away from the plants every window is five empty pots. */
  lemma QuietWindow(row: Row, p: int)
    requires Margined(row.pots)
    requires p - row.start < 2 || p - row.start >= |row.pots| - 2
    ensures Window(row, p) == "....."
  {}

  /** The windows of the string are the windows of the row. */
  lemma InnerWindow(row: Row, p: int)
    requires 2 <= p - row.start < |row.pots| - 2
    ensures var i := p - row.start; Window(row, p) == row.pots[i - 2..i + 3]
  {}

  /** One generation of a margined row is exactly the unbounded rule. */
  lemma GenerationSound(row: Row, rules: map<string, string>)
    requires RulesWellFormed(rules) && QuietRule(rules)
    requires Planted(row.pots) && Margined(row.pots)
    ensures forall p :: At(Row(Generation(row.pots, rules), row.start), p) == NextAt(row, rules, p)
  {
    var n := |row.pots|;
    var g := Generation(row.pots, rules);
    var next := Row(g, row.start);
    if n >= 4 {
      GenerationShape(row.pots, rules);
    }
    forall p
      ensures At(next, p) == NextAt(row, rules, p)
    {
      var i := p - row.start;
      if 2 <= i < n - 2 {
        InnerWindow(row, p);
      } else {
        QuietWindow(row, p);
        if 0 <= i < |g| {
          if n < 4 {
            GenerationShort(row.pots, rules);
          }
          assert g[i] == '.';
        }
      }
    }
  }

  // ---------------------------------------------------------------------------
  // Padding and a generation together

  /** One step of `grow`'s loop: pad, then grow. */
  function Step(row: Row, rules: map<string, string>, edge: Edge): Row {
    var padded := AddPots(row, edge);
    Row(Generation(padded.pots, rules), padded.start)
  }

  /** With the corrected padding a step is the unbounded rule, pot by pot. */
  lemma StepSound(row: Row, rules: map<string, string>)
    requires RulesWellFormed(rules) && QuietRule(rules) && Planted(row.pots)
    ensures forall p :: At(Step(row, rules, Corrected), p) == NextAt(row, rules, p)
    ensures Planted(Step(row, rules, Corrected).pots)
  {
    var padded := AddPots(row, Corrected);
    PadMargins(row);
    PadKeepsPlants(row, Corrected);
    GenerationSound(padded, rules);
    GenerationPlanted(padded.pots, rules);
    forall p
      ensures NextAt(padded, rules, p) == NextAt(row, rules, p)
    {
      SameWindows(padded, row, p);
    }
  }

  /** Whatever the padding, a step of '#' and '.' rows ends in an empty pot. */
  lemma StepEndsEmpty(row: Row, rules: map<string, string>, edge: Edge)
    requires RulesWellFormed(rules) && Planted(row.pots)
    ensures Planted(Step(row, rules, edge).pots)
    ensures EndsEmpty(Step(row, rules, edge).pots)
  {
    PadPlanted(row, edge);
    PadLastButOne(row, edge);
    GenerationPlanted(AddPots(row, edge).pots, rules);
  }

  /** The code's padding loses a lone plant in the last pot: the rule keeps it
      on the unbounded row, but the padded string has no room for it and the
      generation drops the last pot. */
  lemma LostPlant(row: Row, rules: map<string, string>)
    requires RulesWellFormed(rules) && Outcome(rules, "..#..") == "#"
    requires |row.pots| >= 5 && row.pots[|row.pots| - 5..] == "....#"
    ensures var last := row.start + |row.pots| - 1;
      NextAt(row, rules, last) == '#' && At(Step(row, rules, AsWritten), last) == '.'
  {
    var n := |row.pots|;
    var last := row.start + n - 1;
    assert row.pots[n - 3] == '.' && row.pots[n - 2] == '.' && row.pots[n - 1] == '#';
    assert Window(row, last) == "..#..";
    var mid := PadFront(row).pots;
    var m := |mid|;
    assert mid[m - 5..] == row.pots[n - 5..];
    assert forall i :: m - 5 <= i < m - 1 ==> mid[i] == '.';
    PlantInMeaning(mid, m - 5, m - 1);
    assert AddPots(row, AsWritten).pots == mid;
    GenerationShape(mid, rules);
  }

  /** "#....#" with the one rule "..#.." => "#": the plant in pot 5 survives on
      the unbounded row and with the corrected padding, and is lost as written. */
  lemma LostPlantExample(row: Row, rules: map<string, string>)
    requires row == Row("#....#", 0) && rules == map["..#.." := "#"]
    ensures At(Step(row, rules, AsWritten), 5) == '.'
    ensures At(Step(row, rules, Corrected), 5) == '#'
  {
    assert row.pots[1..] == "....#";
    assert "....." !in rules;
    LostPlant(row, rules);
    StepSound(row, rules);
  }

  // ---------------------------------------------------------------------------
  // Many generations

  /** The row after `g` steps. */
  function Run(row0: Row, rules: map<string, string>, edge: Edge, g: nat): Row {
    Iterate(StepOf(rules, edge), row0, g)
  }

  /** `g` applications of `step`. */
  function Iterate(step: Row -> Row, row0: Row, g: nat): Row {
    if g == 0 then row0 else step(Iterate(step, row0, g - 1))
  }

  /** The step as a function of the row. */
  function StepOf(rules: map<string, string>, edge: Edge): Row -> Row {
    (row: Row) => Step(row, rules, edge)
  }

  /** With the corrected padding the row after `g` steps is the unbounded row
      after `g` generations. */
  lemma {:induction false} RunSound(row0: Row, rules: map<string, string>, g: nat)
    requires RulesWellFormed(rules) && QuietRule(rules) && Planted(row0.pots)
    ensures Planted(Run(row0, rules, Corrected, g).pots)
    ensures forall p :: At(Run(row0, rules, Corrected, g), p) == Evolve(row0, rules, g, p)
  {
    if g > 0 {
      var prev := Run(row0, rules, Corrected, g - 1);
      RunSound(row0, rules, g - 1);
      StepSound(prev, rules);
      forall p
        ensures Window(prev, p) == Near(row0, rules, g - 1, p)
      {
      }
    }
  }

  /** The code's padding goes wrong only in the first generation: from a row
      whose last pot is empty it steps exactly like the corrected one. */
  lemma RunAgrees(row0: Row, rules: map<string, string>, g: nat)
    requires RulesWellFormed(rules) && Tidy(row0)
    ensures Run(row0, rules, AsWritten, g) == Run(row0, rules, Corrected, g)
    ensures Tidy(Run(row0, rules, AsWritten, g))
  {
    var a, b := StepOf(rules, AsWritten), StepOf(rules, Corrected);
    forall row | Tidy(row)
      ensures a(row) == b(row) && Tidy(a(row))
    {
      PadAgrees(row);
      StepEndsEmpty(row, rules, AsWritten);
    }
    IterateAgrees(a, b, row0, g);
  }

  /** A row of '#' and '.' whose last pot is empty. */
  predicate Tidy(row: Row) {
    Planted(row.pots) && EndsEmpty(row.pots)
  }

  /** Two steps that agree on tidy rows and keep them tidy give the same runs
      from a tidy row. */
  lemma {:induction false} IterateAgrees(a: Row -> Row, b: Row -> Row, row0: Row, g: nat)
    requires Tidy(row0)
    requires forall row :: Tidy(row) ==> a(row) == b(row) && Tidy(a(row))
    ensures Iterate(a, row0, g) == Iterate(b, row0, g) && Tidy(Iterate(a, row0, g))
  {
    if g > 0 {
      IterateAgrees(a, b, row0, g - 1);
    }
  }

  /** The pot sum after `g` steps. */
  function SumAfter(row0: Row, rules: map<string, string>, edge: Edge, g: nat): int {
    var row := Run(row0, rules, edge, g);
    PotSum(row.pots, row.start)
  }

  /** The pot sums of a whole run, step by step. */
  function Sums(row0: Row, rules: map<string, string>, edge: Edge): nat -> int {
    (g: nat) => SumAfter(row0, rules, edge, g)
  }

  // ---------------------------------------------------------------------------
  // The window of changes and the stability test, for any run of sums

  /** How much the sum grew in step `g`. */
  function Change(sums: nat -> int, g: nat): int
    requires g >= 1
  {
    sums(g) - sums(g - 1)
  }

  /** Every change so far, in order. */
  function History(sums: nat -> int, g: nat): (h: seq<int>)
    ensures |h| == g
  {
    if g == 0 then [] else History(sums, g - 1) + [Change(sums, g)]
  }

  lemma {:induction false} HistoryEntries(sums: nat -> int, g: nat)
    ensures forall j :: 0 <= j < g ==> History(sums, g)[j] == Change(sums, j + 1)
  {
    if g > 0 {
      HistoryEntries(sums, g - 1);
    }
  }

  /** `generation_changes` after step `g`: the last fifty changes at most. */
  function Recent(sums: nat -> int, g: nat): (w: seq<int>)
    ensures |w| == if g > 50 then 50 else g
  {
    var h := History(sums, g);
    if g > 50 then h[g - 50..] else h
  }

  /** The window holds the changes of the last `|w|` steps, oldest first. */
  lemma RecentEntries(sums: nat -> int, g: nat)
    ensures var w := Recent(sums, g);
      forall i :: 0 <= i < |w| ==> w[i] == Change(sums, g - |w| + 1 + i)
  {
    HistoryEntries(sums, g);
  }

  /** Appending the new change, then dropping the oldest beyond fifty, keeps
      the window the last fifty changes. */
  lemma RecentStep(sums: nat -> int, g: nat)
    requires g >= 1
    ensures var w := Recent(sums, g - 1) + [Change(sums, g)];
      Recent(sums, g) == if |w| > 50 then w[1..] else w
  {
    var h := History(sums, g - 1);
    var c := Change(sums, g);
    assert History(sums, g) == h + [c];
    if g > 51 {
      assert (h + [c])[g - 50..] == h[g - 51..][1..] + [c];
    } else if g == 51 {
      assert (h + [c])[1..] == (h + [c])[g - 50..];
    }
  }

  /** A sequence has exactly one distinct value iff it is non-empty and every
      entry equals the last. */
  lemma OneValue(s: seq<int>)
    ensures |set x | x in s| == 1 <==> |s| > 0 && forall i :: 0 <= i < |s| ==> s[i] == s[|s| - 1]
  {
    var values := set x | x in s;
    if |s| == 0 {
      assert values == {};
    } else {
      var v := s[|s| - 1];
      if forall i :: 0 <= i < |s| ==> s[i] == v {
        assert values == {v};
      } else {
        var i :| 0 <= i < |s| && s[i] != v;
        assert v in values && s[i] in values - {v};
        assert |values - {v}| == |values| - 1;
      }
    }
  }

  /** `grow`'s test after step `g`: fifty changes kept, all of them the same. */
  predicate Stable(sums: nat -> int, g: nat) {
    var w := Recent(sums, g);
    |w| == 50 && |set x | x in w| == 1
  }

  /** The test holds exactly when the sum grew by the same amount in each of
      the last fifty steps. */
  lemma StableMeaning(sums: nat -> int, g: nat)
    ensures Stable(sums, g) <==>
      g >= 50 && forall j :: g - 50 < j <= g ==> Change(sums, j) == Change(sums, g)
  {
    var w := Recent(sums, g);
    OneValue(w);
    RecentEntries(sums, g);
    if g >= 50 {
      forall j | g - 50 < j <= g
        ensures Change(sums, j) == w[j - g + 49]
      {}
    }
  }

  /** The test as a function of the step. */
  function StableTest(sums: nat -> int): nat -> bool {
    (g: nat) => Stable(sums, g)
  }

  /** The first step from 1 to `g` that passes `test`, if any. */
  function First(test: nat -> bool, g: nat): (r: Option<nat>)
    ensures r.Some? ==> 1 <= r.value <= g
  {
    if g == 0 then None
    else
      var prev := First(test, g - 1);
      if prev.Some? then prev
      else if test(g) then Some(g)
      else None
  }

  /** The step found is the first that passes; none is found when no step
      passes. */
  lemma {:induction false} FirstLeast(test: nat -> bool, g: nat)
    ensures var r := First(test, g);
      (r.Some? ==> test(r.value) && forall j :: 1 <= j < r.value ==> !test(j)) &&
      (r.None? ==> forall j :: 1 <= j <= g ==> !test(j))
  {
    if g > 0 {
      FirstLeast(test, g - 1);
    }
  }

  /** Once found, the first passing step stays the answer. */
  lemma {:induction false} FirstSticks(test: nat -> bool, g: nat, k: nat)
    requires g <= k && First(test, g).Some?
    ensures First(test, k) == First(test, g)
    decreases k - g
  {
    if g < k {
      FirstSticks(test, g, k - 1);
    }
  }

  /** The sum grows linearly while every change equals `c`. */
  lemma {:induction false} SumLinear(sums: nat -> int, g: nat, k: nat, c: int)
    requires g <= k
    requires forall j :: g < j <= k ==> Change(sums, j) == c
    ensures sums(k) == sums(g) + (k - g) * c
    decreases k - g
  {
    if g < k {
      SumLinear(sums, g, k - 1, c);
      assert Change(sums, k) == c;
      assert (k - g) * c == (k - 1 - g) * c + c;
    }
  }

  /** What `grow` reports for `gen_num` steps of these sums: stopped at the
      first stable step, the sum there plus the last change for every step
      left; with no stable step, the sum after `gen_num` steps; and IndexError
      (the empty `generation_changes[-1]`) when no step runs at all. */
  function Extrapolated(sums: nat -> int, test: nat -> bool, genNum: int): Result<int> {
    if genNum < 1 then Err(IndexError)
    else
      match First(test, genNum)
      case Some(g) => Ok(sums(g) + (genNum - g) * Change(sums, g))
      case None => Ok(sums(genNum))
  }

  /** The extrapolation is exact whenever the steady change it saw goes on
      until `gen_num`, and always when no stable step came. */
  lemma ExtrapolatedExact(sums: nat -> int, test: nat -> bool, genNum: int)
    requires genNum >= 1
    requires First(test, genNum).Some? ==>
      var g := First(test, genNum).value;
      forall j :: g < j <= genNum ==> Change(sums, j) == Change(sums, g)
    ensures Extrapolated(sums, test, genNum) == Ok(sums(genNum))
  {
    var first := First(test, genNum);
    if first.Some? {
      var g := first.value;
      SumLinear(sums, g, genNum, Change(sums, g));
      ExtrapolatedAt(sums, test, genNum, g);
    }
  }

  /** The extrapolation from the first stable step `g`. */
  lemma ExtrapolatedAt(sums: nat -> int, test: nat -> bool, genNum: int, g: nat)
    requires genNum >= 1 && First(test, genNum) == Some(g)
    ensures Extrapolated(sums, test, genNum) == Ok(sums(g) + (genNum - g) * Change(sums, g))
  {}

  // ---------------------------------------------------------------------------
  // grow

  /** The step `grow` stops at: the first stable step, or `gen_num`. */
  function StopStep(test: nat -> bool, genNum: int): nat
    requires genNum >= 1
  {
    match First(test, genNum)
    case Some(g) => g
    case None => genNum
  }

  /** Where the loop of `grow` ends, and what it then reports: the row and the
      sum at a stable step found first, plus the last change for every step
      left, or the row and sum after `gen_num` steps with none found. */
  lemma ExitValue(sums: nat -> int, test: nat -> bool, rows: nat -> string, genNum: int, stop: nat, found: bool,
                  pots: string, total: int)
    requires 1 <= stop <= genNum
    requires found ==> First(test, stop - 1).None? && test(stop)
    requires !found ==> stop == genNum && First(test, genNum).None?
    requires pots == rows(stop) && total == sums(stop) + (if found then genNum - stop else 0) * Change(sums, stop)
    ensures StopStep(test, genNum) == stop
    ensures Extrapolated(sums, test, genNum) == Ok(total)
    ensures Reported(sums, test, rows, genNum) == Ok((pots, total))
  {
    if found {
      assert First(test, stop) == Some(stop);
      FirstSticks(test, stop, genNum);
    }
  }

  /** What `grow` reports, for any run: the row where the loop stopped, and
      the extrapolated sum. */
  function Reported(sums: nat -> int, test: nat -> bool, rows: nat -> string, genNum: int): Result<(string, int)> {
    match Extrapolated(sums, test, genNum)
    case Err(e) => Err(e)
    case Ok(sum) => Ok((rows(StopStep(test, genNum)), sum))
  }

  /** The rows of a whole run, step by step. */
  function RowsOf(row0: Row, rules: map<string, string>, edge: Edge): nat -> string {
    (g: nat) => Run(row0, rules, edge, g).pots
  }

  /** What `grow(pots, rules, gen_num)` returns. */
  function GrowResult(row0: Row, rules: map<string, string>, edge: Edge, genNum: int): Result<(string, int)> {
    var sums := Sums(row0, rules, edge);
    Reported(sums, StableTest(sums), RowsOf(row0, rules, edge), genNum)
  }

  /** The bookkeeping after step `gen`: the change is appended to the window,
      the oldest dropped beyond fifty, and the test applied. */
  method RecordChange(ghost sums: nat -> int, gen: nat, changes: seq<int>, pChange: int, change: int)
    returns (recent: seq<int>, isStable: bool)
    requires gen >= 1 && changes == Recent(sums, gen - 1)
    requires pChange == sums(gen - 1) && change == sums(gen)
    ensures recent == Recent(sums, gen)
    ensures isStable == Stable(sums, gen)
  {
    RecentStep(sums, gen);
    recent := changes + [change - pChange];
    if |recent| > 50 {
      recent := recent[1..];
    }
    var distinct := set x | x in recent;
    isStable := |recent| == 50 && |distinct| == 1;
  }

  /** One generation of `grow`'s loop: pad, then rewrite every window. */
  method GrowStep(pots: string, start: int, rules: map<string, string>, edge: Edge)
    returns (pots': string, start': int)
    ensures Row(pots', start') == Step(Row(pots, start), rules, edge)
  {
    var padded := AddPots(Row(pots, start), edge);
    pots' := NextGeneration(padded.pots, rules);
    start' := padded.start;
  }

  /** Step `g` of a run steps from the row before it. */
  lemma RunNext(row0: Row, rules: map<string, string>, edge: Edge, g: nat, prev: Row)
    requires g >= 1 && prev == Run(row0, rules, edge, g - 1)
    ensures Run(row0, rules, edge, g) == Step(prev, rules, edge)
  {}

  /** The state of `grow` after step `g`: the row, the pot sum and the window
      of changes. */
  ghost predicate Ran(row0: Row, rules: map<string, string>, edge: Edge, g: nat,
                      pots: string, start: int, pChange: int, changes: seq<int>)
  {
    Row(pots, start) == Run(row0, rules, edge, g) && pChange == Sums(row0, rules, edge)(g) &&
    changes == Recent(Sums(row0, rules, edge), g)
  }

  /** One pass of `grow`'s loop body: a generation, the new change recorded,
      and the test. */
  method GrowIteration(ghost row0: Row, rules: map<string, string>, edge: Edge, gen: nat,
                       pots: string, start: int, pChange: int, changes: seq<int>)
    returns (pots': string, start': int, change: int, changes': seq<int>, isStable: bool)
    requires gen >= 1 && Ran(row0, rules, edge, gen - 1, pots, start, pChange, changes)
    ensures Ran(row0, rules, edge, gen, pots', start', change, changes')
    ensures isStable == Stable(Sums(row0, rules, edge), gen)
  {
    ghost var sums := Sums(row0, rules, edge);
    ghost var prev := Row(pots, start);
    pots', start' := GrowStep(pots, start, rules, edge);
    RunNext(row0, rules, edge, gen, prev);
    change := PotSum(pots', start');
    assert change == sums(gen);
    changes', isStable := RecordChange(sums, gen, changes, pChange, change);
  }

  /** The loop of `grow`: it runs the steps from 1 to `gen_num`, keeping the
      last fifty changes of the pot sum, and stops early at the first stable
      step. `stop` is the last step it ran. */
  method GrowLoop(initial: string, rules: map<string, string>, genNum: int, edge: Edge)
    returns (pots: string, start: int, changes: seq<int>, stable: Option<nat>, ghost stop: nat)
    ensures var sums := Sums(Row(initial, 0), rules, edge);
      genNum >= 1 ==>
        1 <= stop <= genNum && Row(pots, start) == Run(Row(initial, 0), rules, edge, stop) &&
        changes == Recent(sums, stop) &&
        (stable.Some? ==> stable.value == stop && First(StableTest(sums), stop - 1).None? && Stable(sums, stop)) &&
        (stable.None? ==> stop == genNum && First(StableTest(sums), genNum).None?)
    ensures genNum < 1 ==> changes == []
  {
    ghost var row0 := Row(initial, 0);
    ghost var test := StableTest(Sums(row0, rules, edge));
    pots := initial;
    start := 0;
    stable := None;
    changes := [];
    var pChange := PotSum(pots, start);
    var gen := 1;
    while gen <= genNum
      invariant 1 <= gen <= if genNum >= 1 then genNum + 1 else 1
      invariant Ran(row0, rules, edge, gen - 1, pots, start, pChange, changes)
      invariant First(test, gen - 1).None?
      decreases genNum - gen
    {
      var isStable;
      pots, start, pChange, changes, isStable := GrowIteration(row0, rules, edge, gen, pots, start, pChange, changes);
      if isStable {
        stable := Some(gen);
        stop := gen;
        return;
      }
      gen := gen + 1;
    }
    stop := gen - 1;
  }

  /** `grow`, written out. */
  method Grow(initial: string, rules: map<string, string>, genNum: int, edge: Edge) returns (r: Result<(string, int)>)
    ensures r == GrowResult(Row(initial, 0), rules, edge, genNum)
  {
    var pots, start, changes, stable, stop := GrowLoop(initial, rules, genNum, edge);
    var genLeft := genNum - (if stable.Some? then stable.value else genNum);
    if |changes| == 0 {
      return Err(IndexError);
    }
    var total := PotSum(pots, start) + genLeft * changes[|changes| - 1];
    GrowEnd(Row(initial, 0), rules, edge, genNum, stop, stable.Some?, pots, start, changes, genLeft, total);
    r := Ok((pots, total));
  }

  /** What `grow` returns once its loop has stopped at step `stop`: the row
      there, and its pot sum plus the last change for every step left. */
  lemma GrowEnd(row0: Row, rules: map<string, string>, edge: Edge, genNum: int, stop: nat, found: bool,
                pots: string, start: int, changes: seq<int>, genLeft: int, total: int)
    requires 1 <= stop <= genNum
    requires found ==> First(StableTest(Sums(row0, rules, edge)), stop - 1).None? && Stable(Sums(row0, rules, edge), stop)
    requires !found ==> stop == genNum && First(StableTest(Sums(row0, rules, edge)), genNum).None?
    requires Row(pots, start) == Run(row0, rules, edge, stop) && changes == Recent(Sums(row0, rules, edge), stop)
    requires genLeft == if found then genNum - stop else 0
    requires |changes| > 0 && total == PotSum(pots, start) + genLeft * changes[|changes| - 1]
    ensures GrowResult(row0, rules, edge, genNum) == Ok((pots, total))
  {
    var sums := Sums(row0, rules, edge);
    var test := StableTest(sums);
    var rows := RowsOf(row0, rules, edge);
    RecentBounded(sums, stop);
    assert changes[|changes| - 1] == Change(sums, stop);
    assert PotSum(pots, start) == sums(stop);
    assert rows(stop) == pots;
    ExitValue(sums, test, rows, genNum, stop, found, pots, total);
    assert GrowResult(row0, rules, edge, genNum) == Reported(sums, test, rows, genNum);
  }

  /** `generation_changes` never holds more than fifty changes, and its last
      entry is the latest change. */
  lemma RecentBounded(sums: nat -> int, g: nat)
    ensures |Recent(sums, g)| <= 50
    ensures g >= 1 ==> Recent(sums, g)[|Recent(sums, g)| - 1] == Change(sums, g)
  {
    RecentEntries(sums, g);
  }
}
