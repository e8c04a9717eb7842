/** Chocolate charts (2018 day 14): two elves extend a scoreboard of digit
    recipes, starting from "37".  Each round appends the digits of the sum of
    their current scores and moves each elf forward by one plus its score,
    wrapping round the board; a stopper decides after every round whether the
    board answers the question. */
module ChocolateCharts {
  import opened Wrappers
  import opened Text

  // ---------------------------------------------------------------------------
  // The board and one round of make_recipes

  /** The scoreboard and the two elves' current recipes. */
  datatype Kitchen = Kitchen(recipes: string, elf1: nat, elf2: nat)

  /** Every recipe is a digit and both elves stand on the board. */
  predicate Valid(k: Kitchen) {
    |k.recipes| >= 2 && AllDigits(k.recipes) && k.elf1 < |k.recipes| && k.elf2 < |k.recipes|
  }

  /** The kitchens `make_recipes` can be in. */
  type Board = k: Kitchen | Valid(k) witness Kitchen("37", 0, 1)

  /** The board before the first round: scores 3 and 7, elves on them. */
  const Start: Board := Kitchen("37", 0, 1)

  /** The sum of the two current scores. */
  function Combined(k: Board): nat {
    DigitValue(k.recipes[k.elf1]) + DigitValue(k.recipes[k.elf2])
  }

  /** `str(n)` of a sum of two digits has one digit below 10 and two otherwise. */
  lemma SumDigits(n: nat)
    requires n <= 18
    ensures |NatString(n)| == (if n < 10 then 1 else 2)
    ensures DigitsValue(NatString(n)) == n
  {
    DigitsOfNatString(n);
  }

  /** One pass of the `while True` body before the stopper: append the new
      recipes and move both elves.  As in the loop, the elves' scores are read
      from the extended board, at their old positions.  The result is again a
      board: digits only, both elves on it. */
  function Round(k: Board): (r: Board)
    ensures |r.recipes| == |k.recipes| + (if Combined(k) < 10 then 1 else 2)
    ensures r.recipes[..|k.recipes|] == k.recipes
  {
    var added := NatString(Combined(k));
    SumDigits(Combined(k));
    var board := k.recipes + added;
    assert board[..|k.recipes|] == k.recipes;
    Kitchen(board,
            (DigitValue(board[k.elf1]) + 1 + k.elf1) % |board|,
            (DigitValue(board[k.elf2]) + 1 + k.elf2) % |board|)
  }

  /** A round appends exactly the digits of the sum, and each elf steps
      forward one plus its score, read at its old position on the old board. */
  lemma RoundMoves(k: Board)
    ensures DigitsValue(Round(k).recipes[|k.recipes|..]) == Combined(k)
    ensures Round(k).elf1 == (k.elf1 + 1 + DigitValue(k.recipes[k.elf1])) % |Round(k).recipes|
    ensures Round(k).elf2 == (k.elf2 + 1 + DigitValue(k.recipes[k.elf2])) % |Round(k).recipes|
  {
    SumDigits(Combined(k));
    assert Round(k).recipes[|k.recipes|..] == NatString(Combined(k));
  }

  // ---------------------------------------------------------------------------
  // Repeated rounds, for any step

  /** The state `n` steps after `s`. */
  function Orbit<S>(step: S -> S, s: S, n: nat): S
    decreases n
  {
    if n == 0 then s else Orbit(step, step(s), n - 1)
  }

  /** The kitchen after `n` rounds of `make_recipes`. */
  function Rounds(n: nat): Board {
    Orbit<Board>(Round, Start, n)
  }

  /** The board starts as "37" with the elves on its two recipes. */
  lemma StartBoard()
    ensures Rounds(0).recipes == "37" && Rounds(0).elf1 == 0 && Rounds(0).elf2 == 1
  {
  }

  /** After the first round the board is "3710" and both elves are back where
      they started (1 + 3 = 4 and 1 + 7 = 8 steps round a board of four). */
  lemma FirstRound()
    ensures Round(Start) == Kitchen("3710", 0, 1)
    ensures Rounds(1) == Kitchen("3710", 0, 1)
  {
    assert Combined(Start) == 10;
    assert NatString(10) == "10";
    assert Round(Start).recipes == "37" + "10";
  }

  /** The board only ever grows at its end: `n` rounds later it has at least
      `n` more recipes and starts with the board now. */
  lemma {:induction false} RoundsPrefix(k: Board, n: nat)
    ensures |Orbit<Board>(Round, k, n).recipes| >= |k.recipes| + n
    ensures Orbit<Board>(Round, k, n).recipes[..|k.recipes|] == k.recipes
    decreases n
  {
    if n > 0 {
      var next := Round(k);
      RoundsPrefix(next, n - 1);
      var c := Orbit<Board>(Round, k, n).recipes;
      assert c == Orbit<Board>(Round, next, n - 1).recipes;
      assert c[..|next.recipes|] == next.recipes;
      assert c[..|k.recipes|] == next.recipes[..|k.recipes|];
    }
  }

  /** Every board from the first round on starts with "3710". */
  lemma BoardsStart(n: nat)
    requires n >= 1
    ensures |Rounds(n).recipes| >= 4 && Rounds(n).recipes[..4] == "3710"
  {
    var first: Board := Kitchen("3710", 0, 1);
    FirstRound();
    RoundsPrefix(first, n - 1);
    assert Rounds(n) == Orbit<Board>(Round, first, n - 1);
  }

  // ---------------------------------------------------------------------------
  // The stoppers

  /** The values the stoppers can return: Python's None, a string or an int. */
  datatype Value = PyNone | Str(s: string) | Int(i: int)

  /** Python truthiness of those values. */
  predicate Truthy(v: Value) {
    match v
    case PyNone => false
    case Str(s) => |s| > 0
    case Int(i) => i != 0
  }

  /** `next_x_recipes_after(recipes, num)`: once the board is longer than
      `int(num) + 10`, the ten recipes after the first `int(num)`; before that
      None.  A `num` that is not an integer raises ValueError. */
  function NextRecipesAfter(recipes: string, num: string): (r: Result<Value>)
    ensures r.Err? <==> ParseInt(num).None?
    ensures r.Err? ==> r.error == ValueError
    ensures r.Ok? ==> (r.value.PyNone? <==> |recipes| <= ParseInt(num).value + 10)
    ensures r.Ok? && ParseInt(num).value >= 0 && |recipes| > ParseInt(num).value + 10 ==>
      var n := ParseInt(num).value;
      r.value == Str(recipes[n..n + 10]) && |r.value.s| == 10
  {
    match ParseInt(num)
    case None => Err(ValueError)
    case Some(n) =>
      if |recipes| > n + 10 then Ok(Str(PySlice(recipes, n, n + 10))) else Ok(PyNone)
  }

  /** `recipes[-len(num)-1:]`: the last `len(num) + 1` recipes, or the whole
      board when it is shorter. */
  function Tail(recipes: string, num: string): (t: string)
    ensures |t| == (if |recipes| <= |num| + 1 then |recipes| else |num| + 1)
    ensures t == recipes[|recipes| - |t|..]
  {
    if |recipes| <= |num| + 1 then recipes else recipes[|recipes| - |num| - 1..]
  }

  /** That is Python's slice with the negative start `-len(num) - 1`. */
  lemma TailSlice(recipes: string, num: string)
    ensures Tail(recipes, num) == PySlice(recipes, -|num| - 1, |recipes|)
  {
  }

  /** An occurrence in a suffix is an occurrence in the whole string. */
  lemma SuffixOccurrence(s: string, t: string, start: nat, k: nat)
    requires start <= |s| && OccursAt(s[start..], t, k)
    ensures OccursAt(s, t, start + k)
  {
    assert s[start + k..start + k + |t|] == s[start..][k..k + |t|];
  }

  /** A string that occurs in a suffix occurs in the whole string. */
  lemma SuffixContains(s: string, t: string, start: nat)
    requires start <= |s| && Contains(s[start..], t)
    ensures Contains(s, t)
  {
    SuffixOccurrence(s, t, start, Find(s[start..], t).value);
  }

  /** `num_of_recipes_made_for(recipes, num)`: when `num` occurs among the last
      `len(num) + 1` recipes, the position of its first occurrence in the whole
      board (`recipes.index(num)`, which cannot fail then); otherwise None. */
  function RecipesMadeFor(recipes: string, num: string): (r: Value)
    ensures r.PyNone? || r.Int?
    ensures r.PyNone? <==> !Contains(Tail(recipes, num), num)
    ensures r.Int? ==> 0 <= r.i && OccursAt(recipes, num, r.i)
    ensures r.Int? ==> forall j :: 0 <= j < r.i ==> !OccursAt(recipes, num, j)
  {
    var t := Tail(recipes, num);
    if Contains(t, num) then
      SuffixContains(recipes, num, |recipes| - |t|);
      Int(Find(recipes, num).value)
    else PyNone
  }

  /** The two stoppers `main` passes to `make_recipes`. */
  datatype Stopper = NextTen | MadeFor

  function Stop(stopper: Stopper, recipes: string, num: string): Result<Value> {
    match stopper
    case NextTen => NextRecipesAfter(recipes, num)
    case MadeFor => Ok(RecipesMadeFor(recipes, num))
  }

  // ---------------------------------------------------------------------------
  // The loop of make_recipes, for any step and any verdict

  /** How the loop decides that the stopper has answered: `if sv:` as written,
      or `if sv is not None`. */
  datatype Test = Truthiness | NotNone

  predicate Stops(test: Test, v: Value) {
    match test
    case Truthiness => Truthy(v)
    case NotNone => !v.PyNone?
  }

  /** Take a step, ask the verdict on the new state; return the first verdict
      that raises or passes the test, after at most `fuel` steps. */
  function Search<S>(step: S -> S, verdict: S -> Result<Value>, test: Test, s: S, fuel: nat): Result<Value>
    decreases fuel
  {
    if fuel == 0 then Err(OutOfFuel)
    else
      var next := step(s);
      match verdict(next)
      case Err(e) => Err(e)
      case Ok(v) => if Stops(test, v) then Ok(v) else Search(step, verdict, test, next, fuel - 1)
  }

  /** The verdict on `s` lets the loop go on. */
  predicate GoesOn<S>(verdict: S -> Result<Value>, test: Test, s: S) {
    verdict(s).Ok? && !Stops(test, verdict(s).value)
  }

  /** A step whose verdict lets the loop go on hands over to the next state,
      with one step fewer to go. */
  lemma SearchGoesOn<S>(step: S -> S, verdict: S -> Result<Value>, test: Test, s: S, fuel: nat, rest: nat)
    requires fuel == rest + 1 && GoesOn(verdict, test, step(s))
    ensures Search(step, verdict, test, s, fuel) == Search(step, verdict, test, step(s), rest)
  {
    assert rest == fuel - 1;
  }

  /** An answer is the verdict after some step `j`, the steps before `j` all
      let the loop go on, and the answer passes the test. */
  lemma {:induction false} SearchFirst<S>(step: S -> S, verdict: S -> Result<Value>, test: Test, s: S, fuel: nat)
      returns (j: nat)
    requires Search(step, verdict, test, s, fuel).Ok?
    ensures 0 < j <= fuel
    ensures verdict(Orbit(step, s, j)) == Ok(Search(step, verdict, test, s, fuel).value)
    ensures Stops(test, Search(step, verdict, test, s, fuel).value)
    ensures forall i :: 0 < i < j ==> GoesOn(verdict, test, Orbit(step, s, i))
    decreases fuel
  {
    var next := step(s);
    if verdict(next).Ok? && Stops(test, verdict(next).value) {
      j := 1;
      assert Orbit(step, s, 1) == Orbit(step, next, 0);
    } else {
      var j' := SearchFirst(step, verdict, test, next, fuel - 1);
      j := j' + 1;
      assert Orbit(step, s, j) == Orbit(step, next, j');
      forall i | 0 < i < j
        ensures GoesOn(verdict, test, Orbit(step, s, i))
      {
        assert Orbit(step, s, i) == Orbit(step, next, i - 1);
      }
    }
  }

  /** An exception other than running out of steps is raised by the verdict
      after some step `j`. */
  lemma {:induction false} SearchRaised<S>(step: S -> S, verdict: S -> Result<Value>, test: Test, s: S, fuel: nat)
      returns (j: nat)
    requires Search(step, verdict, test, s, fuel).Err?
    requires Search(step, verdict, test, s, fuel).error != OutOfFuel
    ensures 0 < j <= fuel
    ensures verdict(Orbit(step, s, j)) == Err(Search(step, verdict, test, s, fuel).error)
    decreases fuel
  {
    var next := step(s);
    if verdict(next).Err? {
      j := 1;
      assert Orbit(step, s, 1) == Orbit(step, next, 0);
    } else {
      var j' := SearchRaised(step, verdict, test, next, fuel - 1);
      j := j' + 1;
      assert Orbit(step, s, j) == Orbit(step, next, j');
    }
  }

  /** When an invariant holds now and every step keeps it and lets the loop go
      on, the loop never answers. */
  lemma {:induction false} SearchNever<S>(step: S -> S, verdict: S -> Result<Value>, test: Test,
                                          inv: S -> bool, s: S, fuel: nat)
    requires inv(s)
    requires forall t :: inv(t) ==> inv(step(t)) && GoesOn(verdict, test, step(t))
    ensures Search(step, verdict, test, s, fuel) == Err(OutOfFuel)
    decreases fuel
  {
    if fuel > 0 {
      SearchNever(step, verdict, test, inv, step(s), fuel - 1);
    }
  }

  /** The same when the invariant only holds from the first step on. */
  lemma SearchNeverAfter<S>(step: S -> S, verdict: S -> Result<Value>, test: Test,
                            inv: S -> bool, s: S, fuel: nat)
    requires inv(step(s)) && GoesOn(verdict, test, step(s))
    requires forall t :: inv(t) ==> inv(step(t)) && GoesOn(verdict, test, step(t))
    ensures Search(step, verdict, test, s, fuel) == Err(OutOfFuel)
  {
    if fuel > 0 {
      SearchNever(step, verdict, test, inv, step(s), fuel - 1);
    }
  }

  // ---------------------------------------------------------------------------
  // make_recipes

  /** The stopper, asked about a kitchen's board. */
  function Verdict(num: string, stopper: Stopper): Board -> Result<Value> {
    (k: Board) => Stop(stopper, k.recipes, num)
  }

  /** What `make_recipes(num, stopper)` returns, with at most `fuel` rounds. */
  function Recipes(num: string, stopper: Stopper, test: Test, fuel: nat): Result<Value> {
    Search<Board>(Round, Verdict(num, stopper), test, Start, fuel)
  }

  /** The only exceptions are running out of rounds and a `num` that
      `next_x_recipes_after` cannot read as an integer. */
  lemma RecipesErrors(num: string, stopper: Stopper, test: Test, fuel: nat)
    requires Recipes(num, stopper, test, fuel).Err?
    ensures Recipes(num, stopper, test, fuel).error == OutOfFuel ||
      (stopper == NextTen && ParseInt(num).None? && Recipes(num, stopper, test, fuel).error == ValueError)
  {
    if Recipes(num, stopper, test, fuel).error != OutOfFuel {
      var j := SearchRaised<Board>(Round, Verdict(num, stopper), test, Start, fuel);
      assert Stop(stopper, Rounds(j).recipes, num).Err?;
    }
  }

  /** With `next_x_recipes_after` and a natural `num`, the answer is the ten
      recipes after the first `num` on the first board longer than `num + 10`. */
  lemma NextTenAnswer(num: string, n: nat, fuel: nat) returns (j: nat)
    requires ParseInt(num) == Some(n) && Recipes(num, NextTen, Truthiness, fuel).Ok?
    ensures 0 < j <= fuel && |Rounds(j).recipes| > n + 10
    ensures Recipes(num, NextTen, Truthiness, fuel).value == Str(Rounds(j).recipes[n..n + 10])
    ensures forall i :: 0 < i < j ==> |Rounds(i).recipes| <= n + 10
  {
    var verdict := Verdict(num, NextTen);
    j := SearchFirst<Board>(Round, verdict, Truthiness, Start, fuel);
    assert verdict(Rounds(j)) == NextRecipesAfter(Rounds(j).recipes, num);
    forall i | 0 < i < j
      ensures |Rounds(i).recipes| <= n + 10
    {
      assert GoesOn(verdict, Truthiness, Rounds(i));
      assert verdict(Rounds(i)) == NextRecipesAfter(Rounds(i).recipes, num);
    }
  }

  /** The loop body of `make_recipes` up to the stopper: the new board and
      elf positions are those of `Round`. */
  method PlayRound(recipes: string, elf1: nat, elf2: nat) returns (recipes': string, elf1': nat, elf2': nat)
    requires Valid(Kitchen(recipes, elf1, elf2))
    ensures Valid(Kitchen(recipes', elf1', elf2'))
    ensures Kitchen(recipes', elf1', elf2') == Round(Kitchen(recipes, elf1, elf2))
  {
    var combined := DigitValue(recipes[elf1]) + DigitValue(recipes[elf2]);
    recipes' := recipes + NatString(combined);
    elf1' := (DigitValue(recipes'[elf1]) + 1 + elf1) % |recipes'|;
    elf2' := (DigitValue(recipes'[elf2]) + 1 + elf2) % |recipes'|;
  }

  /** One round of the loop as `Search` sees it: the stopper's exception or
      truthy answer ends the search, anything else hands over to the next board. */
  lemma RoundOutcome(num: string, stopper: Stopper, test: Test, before: Board, after: Board, fuel: nat)
    requires fuel > 0 && after == Round(before)
    ensures var sv := Stop(stopper, after.recipes, num);
      Search<Board>(Round, Verdict(num, stopper), test, before, fuel) ==
        if sv.Err? then Err(sv.error)
        else if Stops(test, sv.value) then Ok(sv.value)
        else Search<Board>(Round, Verdict(num, stopper), test, after, fuel - 1)
  {
    assert Verdict(num, stopper)(after) == Stop(stopper, after.recipes, num);
  }

  /** With board `k` and `left` rounds to go, the loop of `make_recipes` will
      give `answer`. */
  ghost predicate Pending(answer: Result<Value>, num: string, stopper: Stopper, test: Test, k: Board, left: nat) {
    answer == Search<Board>(Round, Verdict(num, stopper), test, k, left)
  }

  lemma PendingStart(num: string, stopper: Stopper, test: Test, fuel: nat, k: Board)
    requires k == Start
    ensures Pending(Recipes(num, stopper, test, fuel), num, stopper, test, k, fuel)
  {}

  /** One pass of the loop body: a round, then the stopper's verdict, which
      either ends the loop with its answer or hands over to the next board. */
  method Turn(num: string, stopper: Stopper, test: Test, ghost answer: Result<Value>, left: nat,
              recipes: string, elf1: nat, elf2: nat)
    returns (recipes': string, elf1': nat, elf2': nat, sv: Result<Value>, left': nat)
    requires left > 0 && Valid(Kitchen(recipes, elf1, elf2))
    requires Pending(answer, num, stopper, test, Kitchen(recipes, elf1, elf2), left)
    ensures Valid(Kitchen(recipes', elf1', elf2'))
    ensures sv.Err? ==> answer == Err(sv.error)
    ensures sv.Ok? && Stops(test, sv.value) ==> answer == Ok(sv.value)
    ensures left' == left - 1
    ensures sv.Ok? && !Stops(test, sv.value) ==>
      Pending(answer, num, stopper, test, Kitchen(recipes', elf1', elf2'), left')
  {
    left' := left - 1;
    recipes', elf1', elf2' := PlayRound(recipes, elf1, elf2);
    RoundOutcome(num, stopper, test, Kitchen(recipes, elf1, elf2), Kitchen(recipes', elf1', elf2'), left);
    sv := Stop(stopper, recipes', num);
    if sv.Ok? && !Stops(test, sv.value) {
      assert Verdict(num, stopper)(Kitchen(recipes', elf1', elf2')) == sv;
      SearchGoesOn<Board>(Round, Verdict(num, stopper), test, Kitchen(recipes, elf1, elf2), left, left');
    }
  }

  /** The `while True` loop of `make_recipes` from board `k` with at most
      `left` rounds to go: it returns the answer `Pending` promises. */
  method RunRounds(num: string, stopper: Stopper, test: Test, ghost answer: Result<Value>,
                   recipes0: string, elf10: nat, elf20: nat, left0: nat) returns (r: Result<Value>)
    requires Valid(Kitchen(recipes0, elf10, elf20))
    requires Pending(answer, num, stopper, test, Kitchen(recipes0, elf10, elf20), left0)
    ensures r == answer
  {
    var recipes, elf1, elf2 := recipes0, elf10, elf20;
    var left := left0;
    while left > 0
      invariant Valid(Kitchen(recipes, elf1, elf2))
      invariant Pending(answer, num, stopper, test, Kitchen(recipes, elf1, elf2), left)
    {
      var sv;
      recipes, elf1, elf2, sv, left := Turn(num, stopper, test, answer, left, recipes, elf1, elf2);
      if sv.Err? {
        return Err(sv.error);
      }
      if Stops(test, sv.value) {
        return Ok(sv.value);
      }
    }
    return Err(OutOfFuel);
  }

  /** `make_recipes(num, stopper)`, with at most `fuel` rounds, from the board
      "37" with the elves on its two recipes.  The source's `if sv:` is
      `test == Truthiness`; `NotNone` is the corrected test. */
  method MakeRecipes(num: string, stopper: Stopper, test: Test, fuel: nat) returns (r: Result<Value>)
    ensures r == Recipes(num, stopper, test, fuel)
  {
    var recipes := "37";
    var elf1: nat := 0;
    var elf2: nat := 1;
    PendingStart(num, stopper, test, fuel, Kitchen(recipes, elf1, elf2));
    r := RunRounds(num, stopper, test, Recipes(num, stopper, test, fuel), recipes, elf1, elf2, fuel);
  }

  // ---------------------------------------------------------------------------
  // The truthiness test and a recipe count of zero

  /** `num` is a prefix of "3710", so it sits at the very start of every board
      from the first round on. */
  predicate StartsBoards(num: string) {
    |num| <= 4 && num == "3710"[..|num|]
  }

  /** `num` opens the board of `k`. */
  predicate AtStart(num: string, k: Board) {
    |num| <= |k.recipes| && k.recipes[..|num|] == num
  }

  lemma StartOccurrence(num: string, k: Board)
    requires AtStart(num, k)
    ensures Find(k.recipes, num) == Some(0)
  {
    assert OccursAt(k.recipes, num, 0);
  }

  /** A round keeps `num` at the start of the board, so
      `num_of_recipes_made_for` says None or 0, which `if sv:` passes over. */
  lemma StaysAtStart(num: string, k: Board)
    requires AtStart(num, k)
    ensures AtStart(num, Round(k)) && GoesOn(Verdict(num, MadeFor), Truthiness, Round(k))
  {
    var next := Round(k);
    assert next.recipes[..|num|] == next.recipes[..|k.recipes|][..|num|];
    StartOccurrence(num, next);
    assert Verdict(num, MadeFor)(next) == Ok(RecipesMadeFor(next.recipes, num));
  }

  /** Every round keeps `num` at the start and lets the loop go on. */
  lemma AlwaysAtStart(num: string)
    ensures forall t: Board :: AtStart(num, t) ==>
      AtStart(num, Round(t)) && GoesOn(Verdict(num, MadeFor), Truthiness, Round(t))
  {
    forall t: Board | AtStart(num, t)
      ensures AtStart(num, Round(t)) && GoesOn(Verdict(num, MadeFor), Truthiness, Round(t))
    {
      StaysAtStart(num, t);
    }
  }

  /** A `num` at the start of "3710" opens the board after the first round,
      and the verdict there is None or 0. */
  lemma FirstRoundAtStart(num: string, k: Board)
    requires StartsBoards(num) && k == Start
    ensures AtStart(num, Round(k)) && GoesOn(Verdict(num, MadeFor), Truthiness, Round(k))
  {
    FirstRound();
    var first := Round(k);
    assert first.recipes[..|num|] == "3710"[..|num|];
    StartOccurrence(num, first);
    assert Verdict(num, MadeFor)(first) == Ok(RecipesMadeFor(first.recipes, num));
  }

  /** As written, `if sv:` treats the answer 0 as "not yet": for a `num` at the
      start of the board `num_of_recipes_made_for` can only say None or 0, so
      `make_recipes` never returns, whatever the number of rounds. */
  lemma MadeForStartNeverAnswers(num: string, fuel: nat)
    requires StartsBoards(num)
    ensures Recipes(num, MadeFor, Truthiness, fuel) == Err(OutOfFuel)
  {
    FirstRoundAtStart(num, Start);
    AlwaysAtStart(num);
    SearchNeverAfter<Board>(Round, Verdict(num, MadeFor), Truthiness, (t: Board) => AtStart(num, t), Start, fuel);
  }

  /** With `if sv is not None`, `num_of_recipes_made_for` ends the loop at the
      first round whose last `len(num) + 1` recipes contain `num` and answers
      with the number of recipes before its first occurrence; for a `num` at
      the start of the board that answer is 0. */
  lemma MadeForAnswer(num: string, fuel: nat) returns (j: nat)
    requires Recipes(num, MadeFor, NotNone, fuel).Ok?
    ensures 0 < j <= fuel
    ensures Contains(Tail(Rounds(j).recipes, num), num)
    ensures forall i :: 0 < i < j ==> !Contains(Tail(Rounds(i).recipes, num), num)
    ensures var a := Recipes(num, MadeFor, NotNone, fuel).value;
      a.Int? && a.i >= 0 && OccursAt(Rounds(j).recipes, num, a.i) &&
      (forall k :: 0 <= k < a.i ==> !OccursAt(Rounds(j).recipes, num, k)) &&
      (StartsBoards(num) ==> a == Int(0))
  {
    var verdict := Verdict(num, MadeFor);
    j := SearchFirst<Board>(Round, verdict, NotNone, Start, fuel);
    MadeForVerdict(num, Rounds(j));
    forall i | 0 < i < j
      ensures !Contains(Tail(Rounds(i).recipes, num), num)
    {
      assert GoesOn(verdict, NotNone, Rounds(i));
      MadeForVerdict(num, Rounds(i));
    }
    if StartsBoards(num) {
      StartAnswer(num, j);
    }
  }

  /** The stopper `num_of_recipes_made_for`, asked about a board. */
  lemma MadeForVerdict(num: string, k: Board)
    ensures Verdict(num, MadeFor)(k) == Ok(RecipesMadeFor(k.recipes, num))
  {
  }

  /** From the first round on, a prefix of "3710" is first found at 0. */
  lemma StartAnswer(num: string, j: nat)
    requires StartsBoards(num) && j >= 1
    ensures Find(Rounds(j).recipes, num) == Some(0)
  {
    BoardsStart(j);
    var b := Rounds(j).recipes;
    assert b[..|num|] == b[..4][..|num|];
    StartOccurrence(num, Rounds(j));
  }
}
