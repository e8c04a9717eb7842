/** Hex Ed (2017 day 11): the number of steps on a hex grid from the origin to
    where a path of moves ends, found by keeping a tally per direction and
    letting each move cancel or merge with what is already there. */
module HexEd {
  import opened Wrappers
  import opened Text

  // ---------------------------------------------------------------------------
  // Directions

  /** The six hex directions, in the order of their enum values 0..5 (each
      one 60 degrees clockwise from the previous). */
  datatype Direction = N | NE | SE | S | SW | NW

  function Value(d: Direction): (v: nat)
    ensures v < 6
  {
    match d
    case N => 0
    case NE => 1
    case SE => 2
    case S => 3
    case SW => 4
    case NW => 5
  }

  /** `Direction(v)`: the member with value `v`. */
  function FromValue(v: nat): (d: Direction)
    requires v < 6
    ensures Value(d) == v
  {
    if v == 0 then N else if v == 1 then NE else if v == 2 then SE
    else if v == 3 then S else if v == 4 then SW else NW
  }

  /** Values tell directions apart. */
  lemma ValueFromValue(d: Direction)
    ensures FromValue(Value(d)) == d
  {
  }

  /** The member name of a direction. */
  function Name(d: Direction): string {
    match d
    case N => "N"
    case NE => "NE"
    case SE => "SE"
    case S => "S"
    case SW => "SW"
    case NW => "NW"
  }

  /** `Direction[name.upper()]`: the member whose name is the upper-cased
      text, and a KeyError when there is none. */
  function FromName(name: string): Result<Direction> {
    var u := UpperString(name);
    if u == "N" then Ok(N)
    else if u == "NE" then Ok(NE)
    else if u == "SE" then Ok(SE)
    else if u == "S" then Ok(S)
    else if u == "SW" then Ok(SW)
    else if u == "NW" then Ok(NW)
    else Err(KeyError)
  }

  /** A name parses exactly when its upper-cased form is a member name, and
      then to that member; otherwise the error is a KeyError. */
  lemma FromNameMeaning(name: string)
    ensures FromName(name).Ok? ==> Name(FromName(name).value) == UpperString(name)
    ensures FromName(name).Err? <==> forall d: Direction :: Name(d) != UpperString(name)
    ensures FromName(name).Err? ==> FromName(name).error == KeyError
  {
  }

  /** The lower-case spelling of a direction, as the puzzle input writes it. */
  function LowerName(d: Direction): string {
    match d
    case N => "n"
    case NE => "ne"
    case SE => "se"
    case S => "s"
    case SW => "sw"
    case NW => "nw"
  }

  /** Both spellings of a name give back its direction. */
  lemma FromNameRoundTrip(d: Direction)
    ensures FromName(Name(d)) == Ok(d)
    ensures FromName(LowerName(d)) == Ok(d)
  {
    assert UpperString(Name(d)) == Name(d);
    assert UpperString(LowerName(d)) == Name(d);
  }

  // ---------------------------------------------------------------------------
  // The tally of cal_steps

  /** `direction_count`: the dict holds an entry for each of the six
      directions; here entry `v` is the tally of the direction whose value is `v`. */
  type Counts = c: seq<int> | |c| == 6 witness [0, 0, 0, 0, 0, 0]

  /** `(v + k) % 6` for a value and a turn below 6, written without `%`. */
  function Turn(v: nat, k: nat): (r: nat)
    requires v < 6 && k < 6
    ensures r < 6
  {
    if v + k < 6 then v + k else v + k - 6
  }

  lemma TurnIsModulo(v: nat, k: nat)
    requires v < 6 && k < 6
    ensures Turn(v, k) == (v + k) % 6
  {
    if v + k >= 6 {
      assert v + k == 1 * 6 + (v + k - 6);
    }
  }

  /** One pass of the loop body for the direction of value `v`: cancel a
      step of the opposite direction (`v + 3`); else merge a step of the first
      complement (`v + 2`) into the direction between them (`v + 1`); else
      merge the second complement (`v + 4`) into `v + 5`; else tally `v`. */
  function Move(c: Counts, v: nat): Counts
    requires v < 6
  {
    var opposite := Turn(v, 3);
    var complement1 := Turn(v, 2);
    var complement2 := Turn(v, 4);
    if c[opposite] > 0 then
      c[opposite := c[opposite] - 1]
    else if c[complement1] > 0 then
      var adjacent := Turn(v, 1);
      c[complement1 := c[complement1] - 1][adjacent := c[adjacent] + 1]
    else if c[complement2] > 0 then
      var adjacent := Turn(v, 5);
      c[complement2 := c[complement2] - 1][adjacent := c[adjacent] + 1]
    else
      c[v := c[v] + 1]
  }

  /** The sum of the tallies, in the dict's order. */
  function Sum(s: seq<int>): int {
    if |s| == 0 then 0 else Sum(s[..|s| - 1]) + s[|s| - 1]
  }

  lemma SumOfSix(c: Counts)
    ensures Sum(c) == c[0] + c[1] + c[2] + c[3] + c[4] + c[5]
  {
    assert c[..6][..5] == c[..5] && c[..5][..4] == c[..4] && c[..4][..3] == c[..3];
    assert c[..3][..2] == c[..2] && c[..2][..1] == c[..1] && c[..1][..0] == c[..0];
    assert Sum(c[..1]) == c[0];
    assert Sum(c[..2]) == c[0] + c[1];
    assert Sum(c[..3]) == c[0] + c[1] + c[2];
    assert Sum(c[..4]) == c[0] + c[1] + c[2] + c[3];
    assert Sum(c[..5]) == c[0] + c[1] + c[2] + c[3] + c[4];
    assert c[..6] == c;
  }

  /** The tally after the first `k` names, or the KeyError of the first name
      that is not a direction. */
  function Walk(names: seq<string>, k: nat): Result<Counts>
    requires k <= |names|
  {
    if k == 0 then Ok([0, 0, 0, 0, 0, 0])
    else
      match Walk(names, k - 1)
      case Err(e) => Err(e)
      case Ok(c) =>
        match FromName(names[k - 1])
        case Err(e) => Err(e)
        case Ok(d) => Ok(Move(c, Value(d)))
  }

  /** `cal_steps(directions)`. */
  function Steps(names: seq<string>): Result<int> {
    match Walk(names, |names|)
    case Err(e) => Err(e)
    case Ok(c) => Ok(Sum(c))
  }

  /** Once a name fails to parse, the walk stays failed. */
  lemma {:induction false} WalkSticks(names: seq<string>, k: nat, m: nat)
    requires k <= m <= |names| && Walk(names, k).Err?
    ensures Walk(names, m) == Walk(names, k)
    decreases m - k
  {
    if k < m {
      WalkSticks(names, k, m - 1);
    }
  }

  /** One more name that parses takes the tally one move further. */
  lemma WalkStep(names: seq<string>, k: nat, c: Counts, d: Direction)
    requires k < |names| && Walk(names, k) == Ok(c) && FromName(names[k]) == Ok(d)
    ensures Walk(names, k + 1) == Ok(Move(c, Value(d)))
  {
  }

  /** The body of the first loop of `cal_steps`: the dict entries adjusted
      in place, with the source's `% 6` arithmetic. */
  method Tally(before: Counts, direct: Direction) returns (counts: Counts)
    ensures counts == Move(before, Value(direct))
  {
    counts := before;
    var v := Value(direct);
    TurnIsModulo(v, 1);
    TurnIsModulo(v, 2);
    TurnIsModulo(v, 3);
    TurnIsModulo(v, 4);
    TurnIsModulo(v, 5);
    var opposite := (v + 3) % 6;
    var complement1 := (v + 2) % 6;
    var complement2 := (v + 4) % 6;
    if counts[opposite] > 0 {
      counts := counts[opposite := counts[opposite] - 1];
    } else if counts[complement1] > 0 {
      counts := counts[complement1 := counts[complement1] - 1];
      var adjacent := (v + 1) % 6;
      counts := counts[adjacent := counts[adjacent] + 1];
    } else if counts[complement2] > 0 {
      counts := counts[complement2 := counts[complement2] - 1];
      var adjacent := (v + 5) % 6;
      counts := counts[adjacent := counts[adjacent] + 1];
    } else {
      counts := counts[v := counts[v] + 1];
    }
  }

  /** The loops of `cal_steps`: the tally updated in place, then summed. */
  method CalSteps(names: seq<string>) returns (r: Result<int>)
    ensures r == Steps(names)
  {
    var counts: Counts := [0, 0, 0, 0, 0, 0];
    for i := 0 to |names|
      invariant Walk(names, i) == Ok(counts)
    {
      var parsed := FromName(names[i]);
      if parsed.Err? {
        WalkSticks(names, i + 1, |names|);
        return Err(parsed.error);
      }
      var direct := parsed.value;
      WalkStep(names, i, counts, direct);
      counts := Tally(counts, direct);
    }
    var steps := 0;
    for i := 0 to 6
      invariant steps == Sum(counts[..i])
    {
      assert counts[..i + 1][..i] == counts[..i];
      steps := steps + counts[i];
    }
    assert counts[..6] == counts;
    return Ok(steps);
  }

  // ---------------------------------------------------------------------------
  // Geometry: axial coordinates

  /** A hex cell in axial coordinates: `q` grows to the east, `r` to the
      south (so N is (0, -1) and SE is (1, 0)). */
  datatype Hex = Hex(q: int, r: int)

  function Plus(a: Hex, b: Hex): Hex {
    Hex(a.q + b.q, a.r + b.r)
  }

  /** The cell one step away from the origin in the direction of value `v`. */
  function Vec(v: nat): Hex
    requires v < 6
  {
    if v == 0 then Hex(0, -1) else if v == 1 then Hex(1, -1) else if v == 2 then Hex(1, 0)
    else if v == 3 then Hex(0, 1) else if v == 4 then Hex(-1, 1) else Hex(-1, 0)
  }

  function Abs(x: int): nat {
    if x < 0 then -x else x
  }

  function Max3(a: int, b: int, c: int): int {
    if a >= b && a >= c then a else if b >= c then b else c
  }

  /** The fewest steps from the origin to `h`. */
  function Distance(h: Hex): nat {
    Max3(Abs(h.q), Abs(h.r), Abs(h.q + h.r))
  }

  /** Where a path of moves from the origin ends. */
  function PathEnd(path: seq<Direction>): Hex {
    if |path| == 0 then Hex(0, 0) else Plus(PathEnd(path[..|path| - 1]), Vec(Value(path[|path| - 1])))
  }

  /** Where the tallied steps lead. */
  function Position(c: Counts): Hex {
    Hex(c[1] + c[2] - c[4] - c[5], c[3] + c[4] - c[0] - c[1])
  }

  /** The turns of the loop body are turns of the hexagon: the opposite
      direction undoes a step, and a step plus a complement is one step in
      the direction between them. */
  lemma OppositeCancels(v: nat)
    requires v < 6
    ensures Plus(Vec(v), Vec(Turn(v, 3))) == Hex(0, 0)
  {
  }

  lemma ComplementsMerge(v: nat)
    requires v < 6
    ensures Plus(Vec(v), Vec(Turn(v, 2))) == Vec(Turn(v, 1))
    ensures Plus(Vec(v), Vec(Turn(v, 4))) == Vec(Turn(v, 5))
  {
  }

  /** Each move takes the tallied position one step in its direction. */
  lemma MovePosition(c: Counts, v: nat)
    requires v < 6
    ensures Position(Move(c, v)) == Plus(Position(c), Vec(v))
  {
  }

  /** No tally goes negative. */
  predicate NonNegative(c: Counts) {
    forall i :: 0 <= i < 6 ==> c[i] >= 0
  }

  lemma MoveNonNegative(c: Counts, v: nat)
    requires v < 6 && NonNegative(c)
    ensures NonNegative(Move(c, v))
  {
  }

  /** A move takes one step off the total when it cancels an opposite step,
      leaves it when it merges with a complement, and adds one otherwise. */
  lemma MoveTotal(c: Counts, v: nat)
    requires v < 6
    ensures Sum(Move(c, v)) - Sum(c) ==
      if c[Turn(v, 3)] > 0 then -1 else if c[Turn(v, 2)] > 0 || c[Turn(v, 4)] > 0 then 0 else 1
  {
    SumOfSix(c);
    SumOfSix(Move(c, v));
  }

  // ---------------------------------------------------------------------------
  // The shape the tally keeps

  /** Only direction `a` and the next one clockwise may have steps tallied. */
  predicate Within(c: Counts, a: nat)
    requires a < 6
  {
    c[Turn(a, 2)] == 0 && c[Turn(a, 3)] == 0 && c[Turn(a, 4)] == 0 && c[Turn(a, 5)] == 0
  }

  /** Steps tallied in two neighbouring directions at most. */
  predicate Narrow(c: Counts) {
    exists a: nat :: a < 6 && Within(c, a)
  }

  /** A move along `a` or its clockwise neighbour keeps the tally there. */
  lemma WithinAhead(c: Counts, a: nat, v: nat)
    requires a < 6 && NonNegative(c) && Within(c, a) && (v == a || v == Turn(a, 1))
    ensures Within(Move(c, v), a)
  {
  }

  /** A move two sixths clockwise of `a` merges with a step along `a` when
      there is one, and otherwise the tally turns one sixth clockwise. */
  lemma WithinTwoAhead(c: Counts, a: nat, v: nat)
    requires a < 6 && NonNegative(c) && Within(c, a) && v == Turn(a, 2)
    ensures Within(Move(c, v), if c[a] > 0 then a else Turn(a, 1))
  {
  }

  /** A move opposite `a` cancels a step along `a`, else merges with a step
      along its neighbour, else starts from an empty tally. */
  lemma WithinOpposite(c: Counts, a: nat, v: nat)
    requires a < 6 && NonNegative(c) && Within(c, a) && v == Turn(a, 3)
    ensures Within(Move(c, v), if c[a] > 0 then a else if c[Turn(a, 1)] > 0 then Turn(a, 1) else v)
  {
  }

  lemma WithinTwoBehind(c: Counts, a: nat, v: nat)
    requires a < 6 && NonNegative(c) && Within(c, a) && v == Turn(a, 4)
    ensures Within(Move(c, v), if c[Turn(a, 1)] > 0 then a else if c[a] > 0 then Turn(a, 5) else v)
  {
  }

  lemma WithinBehind(c: Counts, a: nat, v: nat)
    requires a < 6 && NonNegative(c) && Within(c, a) && v == Turn(a, 5)
    ensures Within(Move(c, v), if c[Turn(a, 1)] > 0 then a else Turn(a, 5))
  {
  }

  /** Every move keeps the tally in two neighbouring directions. */
  lemma MoveNarrow(c: Counts, a: nat, v: nat)
    requires a < 6 && v < 6 && NonNegative(c) && Within(c, a)
    ensures Narrow(Move(c, v))
  {
    var j := if v >= a then v - a else v + 6 - a;
    if j <= 1 {
      WithinAhead(c, a, v);
    } else if j == 2 {
      WithinTwoAhead(c, a, v);
    } else if j == 3 {
      WithinOpposite(c, a, v);
    } else if j == 4 {
      WithinTwoBehind(c, a, v);
    } else {
      WithinBehind(c, a, v);
    }
  }

  /** A narrow tally with no negative entry has exactly as many steps as the
      distance to where it leads. */
  lemma NarrowTotal(c: Counts, a: nat)
    requires a < 6 && NonNegative(c) && Within(c, a)
    ensures Sum(c) == Distance(Position(c))
  {
    SumOfSix(c);
  }

  /** One step changes the distance from the origin by at most one. */
  lemma DistanceStep(h: Hex, v: nat)
    requires v < 6
    ensures Distance(Plus(h, Vec(v))) <= Distance(h) + 1
  {
  }

  /** No path is shorter than the distance to where it ends. */
  lemma {:induction false} PathAtLeastDistance(path: seq<Direction>)
    ensures Distance(PathEnd(path)) <= |path|
  {
    if |path| > 0 {
      PathAtLeastDistance(path[..|path| - 1]);
      DistanceStep(PathEnd(path[..|path| - 1]), Value(path[|path| - 1]));
    }
  }

  // ---------------------------------------------------------------------------
  // What cal_steps computes

  /** The names all parse, and these are the directions they give. */
  predicate Parses(names: seq<string>, path: seq<Direction>) {
    |path| == |names| && forall i :: 0 <= i < |names| ==> FromName(names[i]) == Ok(path[i])
  }

  /** The tally after each prefix is narrow, has no negative entry and
      leads where the parsed path leads. */
  lemma {:induction false} WalkInvariant(names: seq<string>, path: seq<Direction>, k: nat)
    requires Parses(names, path) && k <= |names|
    ensures Walk(names, k).Ok?
    ensures NonNegative(Walk(names, k).value) && Narrow(Walk(names, k).value)
    ensures Position(Walk(names, k).value) == PathEnd(path[..k])
  {
    if k == 0 {
      assert Within(Walk(names, 0).value, 0);
    } else {
      WalkInvariant(names, path, k - 1);
      var c := Walk(names, k - 1).value;
      var v := Value(path[k - 1]);
      WalkStep(names, k - 1, c, path[k - 1]);
      var a: nat :| a < 6 && Within(c, a);
      MoveNarrow(c, a, v);
      MoveNonNegative(c, v);
      MovePosition(c, v);
      assert path[..k][..k - 1] == path[..k - 1];
    }
  }

  /** When every name is a direction, `cal_steps` gives the distance to the
      end of the path, and no path to that cell is shorter: the greedy tally
      is optimal. */
  lemma StepsIsDistance(names: seq<string>, path: seq<Direction>)
    requires Parses(names, path)
    ensures Steps(names) == Ok(Distance(PathEnd(path)))
    ensures forall other: seq<Direction> :: PathEnd(other) == PathEnd(path) ==>
      Steps(names).value <= |other|
  {
    WalkInvariant(names, path, |names|);
    var c := Walk(names, |names|).value;
    var a: nat :| a < 6 && Within(c, a);
    NarrowTotal(c, a);
    assert path[..|names|] == path;
    forall other: seq<Direction> | PathEnd(other) == PathEnd(path)
      ensures Steps(names).value <= |other|
    {
      PathAtLeastDistance(other);
    }
  }

  /** The answer is never more than the number of moves, and no moves give 0. */
  lemma StepsBounds(names: seq<string>, path: seq<Direction>)
    requires Parses(names, path)
    ensures Steps(names).Ok? && 0 <= Steps(names).value <= |names|
    ensures |names| == 0 ==> Steps(names) == Ok(0)
  {
    StepsIsDistance(names, path);
    PathAtLeastDistance(path);
  }

  /** `cal_steps` raises KeyError exactly when some name is not a direction. */
  lemma {:induction false} WalkFails(names: seq<string>, k: nat)
    requires k <= |names|
    ensures Walk(names, k).Err? <==> exists i :: 0 <= i < k && FromName(names[i]).Err?
    ensures Walk(names, k).Err? ==> Walk(names, k).error == KeyError
  {
    if k > 0 {
      WalkFails(names, k - 1);
    }
  }

  lemma StepsFails(names: seq<string>)
    ensures Steps(names).Err? <==> exists i :: 0 <= i < |names| && FromName(names[i]).Err?
    ensures Steps(names).Err? ==> Steps(names).error == KeyError
  {
    WalkFails(names, |names|);
  }

  // ---------------------------------------------------------------------------
  // The puzzle's examples

  lemma PathEndSnoc(path: seq<Direction>, d: Direction)
    ensures PathEnd(path + [d]) == Plus(PathEnd(path), Vec(Value(d)))
  {
    assert (path + [d])[..|path|] == path;
  }

  /** "ne,ne,ne" is 3 steps away. */
  lemma ExampleStraight(names: seq<string>)
    requires names == ["ne", "ne", "ne"]
    ensures Steps(names) == Ok(3)
  {
    FromNameRoundTrip(NE);
    var path := [NE, NE, NE];
    assert Parses(names, path);
    StepsIsDistance(names, path);
  }

  /** "ne,ne,s,s" is 2 steps away. */
  lemma ExampleBend(names: seq<string>)
    requires names == ["ne", "ne", "s", "s"]
    ensures Steps(names) == Ok(2)
  {
    FromNameRoundTrip(NE);
    FromNameRoundTrip(S);
    var p0: seq<Direction> := [];
    var p1 := p0 + [NE];
    PathEndSnoc(p0, NE);
    assert PathEnd(p1) == Hex(1, -1);
    var p2 := p1 + [NE];
    PathEndSnoc(p1, NE);
    assert PathEnd(p2) == Hex(2, -2);
    var p3 := p2 + [S];
    PathEndSnoc(p2, S);
    assert PathEnd(p3) == Hex(2, -1);
    var p4 := p3 + [S];
    PathEndSnoc(p3, S);
    assert PathEnd(p4) == Hex(2, 0);
    var path := p4;
    assert Parses(names, path);
    StepsIsDistance(names, path);
  }

}
