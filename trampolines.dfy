/** A maze of twisty trampolines (2017 day 5): a list of jump offsets is
    followed from the first one until a jump leads past the end; every jump
    first rewrites the offset it used by a rule. */
module Trampolines {
  import opened Wrappers

  // ---------------------------------------------------------------------------
  // rule1, rule2

  /** `rule1`: the offset grows by one. */
  function Rule1(v: int): int {
    v + 1
  }

  /** `rule2`: an offset of three or more shrinks by one, any other grows by one. */
  function Rule2(v: int): int {
    if v >= 3 then v - 1 else Rule1(v)
  }

  /** Both rules move an offset by exactly one, in the direction the puzzle says. */
  lemma RulesStep(v: int)
    ensures Rule1(v) - v == 1
    ensures v >= 3 ==> v - Rule2(v) == 1
    ensures v < 3 ==> Rule2(v) - v == 1
  {
  }

  /** Under `rule2` an offset that has reached 2 never drops below 2 again,
      and one below 3 never rises above 3. */
  lemma Rule2Band(v: int)
    ensures v >= 2 ==> Rule2(v) >= 2
    ensures v <= 3 ==> Rule2(v) <= 3
  {
  }

  // ---------------------------------------------------------------------------
  // find_exit

  /** The offsets and the current position. */
  datatype Maze = Maze(offsets: seq<int>, pos: int)

  /** The cell `instructions[pos]` names: Python counts a negative position
      from the end, and one below `-len` raises IndexError. */
  function Cell(m: Maze): (r: Option<nat>)
    ensures r.Some? <==> -|m.offsets| <= m.pos < |m.offsets|
    ensures r.Some? ==> r.value < |m.offsets|
    ensures r.Some? && m.pos >= 0 ==> r.value == m.pos
    ensures r.Some? && m.pos < 0 ==> r.value == |m.offsets| + m.pos
  {
    if 0 <= m.pos < |m.offsets| then Some(m.pos)
    else if -|m.offsets| <= m.pos < 0 then Some(|m.offsets| + m.pos)
    else None
  }

  /** One jump: read the offset, rewrite it by the rule, move by the offset read. */
  function Jump(m: Maze, rule: int -> int): (r: Result<Maze>)
    ensures r.Err? <==> Cell(m).None?
    ensures r.Err? ==> r.error == IndexError
    ensures r.Ok? ==> |r.value.offsets| == |m.offsets|
    ensures r.Ok? ==> var i := Cell(m).value;
      r.value.offsets[i] == rule(m.offsets[i]) && r.value.pos == m.pos + m.offsets[i] &&
      forall j :: 0 <= j < |m.offsets| && j != i ==> r.value.offsets[j] == m.offsets[j]
  {
    match Cell(m)
    case None => Err(IndexError)
    case Some(i) => Ok(Maze(m.offsets[i := rule(m.offsets[i])], m.pos + m.offsets[i]))
  }

  /** The number of jumps until the position is past the end, and the final
      offsets; at most `fuel` jumps are made. */
  function Exit(m: Maze, rule: int -> int, fuel: nat): (r: Result<(nat, seq<int>)>)
    ensures r.Ok? ==> r.value.0 <= fuel && |r.value.1| == |m.offsets|
    ensures r.Ok? && m.pos < |m.offsets| ==> r.value.0 >= 1
    ensures r.Err? ==> r.error == IndexError || r.error == OutOfFuel
    decreases fuel
  {
    if m.pos >= |m.offsets| then Ok((0, m.offsets))
    else if fuel == 0 then Err(OutOfFuel)
    else
      match Jump(m, rule)
      case Err(e) => Err(e)
      case Ok(next) => After(Exit(next, rule, fuel - 1), 1)
  }

  /** `k` more jumps were made before the outcome `r`. */
  function After(r: Result<(nat, seq<int>)>, k: nat): Result<(nat, seq<int>)> {
    if r.Ok? then Ok((r.value.0 + k, r.value.1)) else r
  }

  /** An empty list is left at once. */
  lemma ExitEmpty(rule: int -> int, fuel: nat)
    ensures Exit(Maze([], 0), rule, fuel) == Ok((0, []))
  {
  }

  /** Fuel only decides whether the exit is reached, never where: with more
      fuel an exit found stays the same exit. */
  lemma {:induction false} ExitFuel(m: Maze, rule: int -> int, fuel: nat, more: nat)
    requires Exit(m, rule, fuel).Ok?
    ensures Exit(m, rule, fuel + more) == Exit(m, rule, fuel)
    decreases fuel
  {
    if m.pos < |m.offsets| {
      var next := Jump(m, rule).value;
      ExitFuel(next, rule, fuel - 1, more);
    }
  }

  /** Unrolling one jump of `Exit`, with `k` jumps already made. */
  lemma ExitStep(m: Maze, rule: int -> int, fuel: nat, k: nat)
    requires m.pos < |m.offsets| && fuel > 0 && Jump(m, rule).Ok?
    ensures After(Exit(m, rule, fuel), k) == After(Exit(Jump(m, rule).value, rule, fuel - 1), k + 1)
  {
  }

  /** `find_exit(instructions, rule)`: the number of jumps it takes to leave
      the list, rewriting `instructions` in place.  `fuel` bounds the jumps. */
  method FindExit(instructions: array<int>, rule: int -> int, fuel: nat) returns (r: Result<nat>)
    modifies instructions
    ensures var e := Exit(Maze(old(instructions[..]), 0), rule, fuel);
      (r.Ok? <==> e.Ok?) &&
      (r.Ok? ==> r.value == e.value.0 && instructions[..] == e.value.1) &&
      (r.Err? ==> r.error == e.error)
  {
    ghost var s0 := instructions[..];
    var steps := 0;
    var pos := 0;
    while pos < instructions.Length
      invariant steps <= fuel
      invariant Exit(Maze(s0, 0), rule, fuel) == After(Exit(Maze(instructions[..], pos), rule, fuel - steps), steps)
      decreases fuel - steps
    {
      if steps == fuel {
        return Err(OutOfFuel);
      }
      var i;
      if pos >= 0 {
        i := pos;
      } else if pos >= -instructions.Length {
        i := instructions.Length + pos;
      } else {
        return Err(IndexError);
      }
      ghost var m := Maze(instructions[..], pos);
      steps := steps + 1;
      var instr := instructions[i];
      instructions[i] := rule(instr);
      pos := pos + instr;
      assert Jump(m, rule) == Ok(Maze(instructions[..], pos));
      ExitStep(m, rule, fuel - steps + 1, steps - 1);
    }
    return Ok(steps);
  }

  /** One jump from a position inside the list, spelled out. */
  lemma JumpAt(m: Maze, rule: int -> int, next: Maze)
    requires 0 <= m.pos < |m.offsets|
    requires next.pos == m.pos + m.offsets[m.pos] && |next.offsets| == |m.offsets|
    requires next.offsets[m.pos] == rule(m.offsets[m.pos])
    requires forall j :: 0 <= j < |m.offsets| && j != m.pos ==> next.offsets[j] == m.offsets[j]
    ensures Jump(m, rule) == Ok(next)
  {
    assert next.offsets == m.offsets[m.pos := rule(m.offsets[m.pos])];
  }

  /** One jump back from a known exit: a state one jump before a state that
      is left after `fuel - 1` jumps is itself left after `fuel`. */
  lemma ExitBack(m: Maze, rule: int -> int, next: Maze, fuel: nat, final: seq<int>)
    requires 0 <= m.pos < |m.offsets| && fuel > 0 && Jump(m, rule) == Ok(next)
    requires Exit(next, rule, fuel - 1) == Ok((fuel - 1, final))
    ensures Exit(m, rule, fuel) == Ok((fuel, final))
  {
  }

  /** The puzzle's maze `0 3 0 1 -3` is left after 5 jumps under rule 1,
      ending as `2 5 0 1 -2`. */
  lemma ExampleRule1()
    ensures Exit(Maze([0, 3, 0, 1, -3], 0), Rule1, 5) == Ok((5, [2, 5, 0, 1, -2]))
  {
    var m0, m1, m2 := Maze([0, 3, 0, 1, -3], 0), Maze([1, 3, 0, 1, -3], 0), Maze([2, 3, 0, 1, -3], 1);
    var m3, m4, m5 := Maze([2, 4, 0, 1, -3], 4), Maze([2, 4, 0, 1, -2], 1), Maze([2, 5, 0, 1, -2], 5);
    JumpAt(m0, Rule1, m1);
    JumpAt(m1, Rule1, m2);
    JumpAt(m2, Rule1, m3);
    JumpAt(m3, Rule1, m4);
    JumpAt(m4, Rule1, m5);
    ExitBack(m4, Rule1, m5, 1, [2, 5, 0, 1, -2]);
    ExitBack(m3, Rule1, m4, 2, [2, 5, 0, 1, -2]);
    ExitBack(m2, Rule1, m3, 3, [2, 5, 0, 1, -2]);
    ExitBack(m1, Rule1, m2, 4, [2, 5, 0, 1, -2]);
    ExitBack(m0, Rule1, m1, 5, [2, 5, 0, 1, -2]);
  }

  /** The last five jumps of the maze under rule 2. */
  lemma ExampleRule2End()
    ensures Exit(Maze([2, 3, 0, 1, -2], 3), Rule2, 5) == Ok((5, [2, 3, 2, 3, -1]))
  {
    var m0, m1, m2 := Maze([2, 3, 0, 1, -2], 3), Maze([2, 3, 0, 2, -2], 4), Maze([2, 3, 0, 2, -1], 2);
    var m3, m4, m5 := Maze([2, 3, 1, 2, -1], 2), Maze([2, 3, 2, 2, -1], 3), Maze([2, 3, 2, 3, -1], 5);
    JumpAt(m0, Rule2, m1);
    JumpAt(m1, Rule2, m2);
    JumpAt(m2, Rule2, m3);
    JumpAt(m3, Rule2, m4);
    JumpAt(m4, Rule2, m5);
    ExitBack(m4, Rule2, m5, 1, [2, 3, 2, 3, -1]);
    ExitBack(m3, Rule2, m4, 2, [2, 3, 2, 3, -1]);
    ExitBack(m2, Rule2, m3, 3, [2, 3, 2, 3, -1]);
    ExitBack(m1, Rule2, m2, 4, [2, 3, 2, 3, -1]);
    ExitBack(m0, Rule2, m1, 5, [2, 3, 2, 3, -1]);
  }

  /** And after 10 jumps under rule 2, ending as `2 3 2 3 -1`. */
  lemma ExampleRule2()
    ensures Exit(Maze([0, 3, 0, 1, -3], 0), Rule2, 10) == Ok((10, [2, 3, 2, 3, -1]))
  {
    var m0, m1, m2 := Maze([0, 3, 0, 1, -3], 0), Maze([1, 3, 0, 1, -3], 0), Maze([2, 3, 0, 1, -3], 1);
    var m3, m4, m5 := Maze([2, 2, 0, 1, -3], 4), Maze([2, 2, 0, 1, -2], 1), Maze([2, 3, 0, 1, -2], 3);
    JumpAt(m0, Rule2, m1);
    JumpAt(m1, Rule2, m2);
    JumpAt(m2, Rule2, m3);
    JumpAt(m3, Rule2, m4);
    JumpAt(m4, Rule2, m5);
    ExampleRule2End();
    ExitBack(m4, Rule2, m5, 6, [2, 3, 2, 3, -1]);
    ExitBack(m3, Rule2, m4, 7, [2, 3, 2, 3, -1]);
    ExitBack(m2, Rule2, m3, 8, [2, 3, 2, 3, -1]);
    ExitBack(m1, Rule2, m2, 9, [2, 3, 2, 3, -1]);
    ExitBack(m0, Rule2, m1, 10, [2, 3, 2, 3, -1]);
  }
}
