/** No matter how you slice it (2018 day 3): elves claim rectangles of a
    1000 by 1000 inch sheet of fabric, one claim per line `#id @ x,y: wxh`.
    The model reads the claims, lists the square inches each one covers,
    finds the inches claimed twice or more, and finds a claim that shares no
    inch with any other. */
module NoMatterSlice {
  import opened Wrappers
  import opened Text

  // ---------------------------------------------------------------------------
  // Claims and the inches they cover

  /** A square inch of the sheet, `(x, y)`. */
  type Cell = (nat, nat)

  /** The five numbers of a claim (the `overlap` flag lives apart, in the
      loops that set it). */
  datatype Claim = Claim(id: nat, x: nat, y: nat, width: nat, height: nat)

  /** The sheet is a fixed 1000 by 1000 grid. */
  const Side: nat := 1000

  /** The inch `cell` lies in the rectangle of `c`. */
  predicate InRect(c: Claim, cell: Cell) {
    c.x <= cell.0 < c.x + c.width && c.y <= cell.1 < c.y + c.height
  }

  /** Row `row` of the claim, left to right. */
  function RowCells(c: Claim, row: nat): (r: seq<Cell>)
    ensures |r| == c.width
    ensures forall i :: 0 <= i < |r| ==> r[i] == (c.x + i, c.y + row)
  {
    seq(c.width, i requires 0 <= i < c.width => (c.x + i, c.y + row))
  }

  /** The rows from `row` down, each left to right. */
  function RowsFrom(c: Claim, row: nat): seq<Cell>
    decreases c.height - row
  {
    if row >= c.height then [] else RowCells(c, row) + RowsFrom(c, row + 1)
  }

  /** `get_inches`: `[(x, y) for y in y_range for x in x_range]`. */
  function Inches(c: Claim): seq<Cell> {
    RowsFrom(c, 0)
  }

  /** `a` comes before `b` when read row by row: by `y`, then by `x`. */
  predicate Before(a: Cell, b: Cell) {
    a.1 < b.1 || (a.1 == b.1 && a.0 < b.0)
  }

  /** The rows from `row` on: `width` inches per row, exactly the inches of
      those rows, in reading order. */
  lemma {:induction false} RowsFromShape(c: Claim, row: nat)
    ensures row <= c.height ==> |RowsFrom(c, row)| == (c.height - row) * c.width
    ensures forall cell :: cell in RowsFrom(c, row) <==>
      (InRect(c, cell) && c.y + row <= cell.1)
    ensures forall i, j :: 0 <= i < j < |RowsFrom(c, row)| ==>
      Before(RowsFrom(c, row)[i], RowsFrom(c, row)[j])
    decreases c.height - row
  {
    if row < c.height {
      RowsFromShape(c, row + 1);
      var head, tail := RowCells(c, row), RowsFrom(c, row + 1);
      assert RowsFrom(c, row) == head + tail;
      forall cell: Cell
        ensures cell in head + tail <==> (InRect(c, cell) && c.y + row <= cell.1)
      {
        if InRect(c, cell) && cell.1 == c.y + row {
          assert cell == head[cell.0 - c.x];
        }
      }
      forall i, j | 0 <= i < j < |head + tail|
        ensures Before((head + tail)[i], (head + tail)[j])
      {
        if j >= |head| && i < |head| {
          assert tail[j - |head|] in tail;
        }
      }
      calc {
        |head + tail|;
        c.width + (c.height - (row + 1)) * c.width;
        (c.height - row) * c.width;
      }
    }
  }

  /** `get_inches` lists `width * height` inches, exactly those of the
      rectangle, each once, ordered by `y` and then by `x`. */
  lemma InchesShape(c: Claim)
    ensures |Inches(c)| == c.width * c.height
    ensures forall cell :: cell in Inches(c) <==> InRect(c, cell)
    ensures forall i, j :: 0 <= i < j < |Inches(c)| ==> Before(Inches(c)[i], Inches(c)[j])
    ensures forall i, j :: 0 <= i < j < |Inches(c)| ==> Inches(c)[i] != Inches(c)[j]
  {
    RowsFromShape(c, 0);
  }

  /** Every inch of the claim is on the sheet: an empty rectangle, or one
      inside the 1000 by 1000 grid. */
  predicate Fits(c: Claim) {
    c.width == 0 || c.height == 0 || (c.x + c.width <= Side && c.y + c.height <= Side)
  }

  lemma FitsMeaning(c: Claim)
    ensures Fits(c) <==> forall cell: Cell :: InRect(c, cell) ==> cell.0 < Side && cell.1 < Side
  {
    if !Fits(c) {
      assert InRect(c, (c.x + c.width - 1, c.y + c.height - 1));
    }
  }

  // ---------------------------------------------------------------------------
  // _parse_claim

  /** `lit`, then a run of decimal digits, at the front of `s`: the run's value
      and what follows it.  The run is as long as it can be, as `\d+` is. */
  function Field(s: string, lit: string): (r: Option<(nat, string)>)
    ensures r.Some? ==> |r.value.1| < |s|
  {
    if |lit| <= |s| && s[..|lit|] == lit then
      var t := s[|lit|..];
      var n := Span(t, IsDigit);
      if n == 0 then None else Some((DigitsValue(t[..n]), t[n..]))
    else None
  }

  /** Each literal of `lits` followed by a number, in turn. */
  function Fields(s: string, lits: seq<string>): (r: Option<(seq<nat>, string)>)
    ensures r.Some? ==> |r.value.0| == |lits|
    decreases |lits|
  {
    if |lits| == 0 then Some(([], s))
    else
      match Field(s, lits[0])
      case None => None
      case Some((v, rest)) =>
        match Fields(rest, lits[1..])
        case None => None
        case Some((vs, end)) => Some(([v] + vs, end))
  }

  /** The literal pieces of `#(?P<id>\d+) @ (?P<x>\d+),(?P<y>\d+): (?P<w>\d+)x(?P<h>\d+)`. */
  const Pattern: seq<string> := ["#", " @ ", ",", ": ", "x"]

  /** What `$` lets through after the last number: nothing, or one newline
      that ends the string. */
  predicate LineEnd(s: string) {
    s == "" || s == "\n"
  }

  /** `Claim(claim_string)`: the five numbers of a line that matches the
      pattern; no match makes `matches.group` raise AttributeError. */
  function ParseClaim(line: string): (r: Result<Claim>)
    ensures r.Err? ==> r.error == AttributeError
  {
    match Fields(line, Pattern)
    case None => Err(AttributeError)
    case Some((v, end)) =>
      if LineEnd(end) then Ok(Claim(v[0], v[1], v[2], v[3], v[4])) else Err(AttributeError)
  }

  /** Literals interleaved with digit runs, as a matching line lays them out. */
  function Layout(lits: seq<string>, ds: seq<string>): string
    requires |ds| == |lits|
    decreases |lits|
  {
    if |lits| == 0 then "" else lits[0] + ds[0] + Layout(lits[1..], ds[1..])
  }

  /** Non-empty runs of digits. */
  predicate Numerals(ds: seq<string>) {
    forall i :: 0 <= i < |ds| ==> |ds[i]| > 0 && AllDigits(ds[i])
  }

  /** The values of those runs. */
  function Values(ds: seq<string>): (vs: seq<nat>)
    requires Numerals(ds)
    ensures |vs| == |ds|
    ensures forall i :: 0 <= i < |ds| ==> vs[i] == DigitsValue(ds[i])
    decreases |ds|
  {
    if |ds| == 0 then [] else [DigitsValue(ds[0])] + Values(ds[1..])
  }

  /** Literals that cannot extend the digit run before them. */
  predicate Separators(lits: seq<string>) {
    forall i :: 0 <= i < |lits| ==> |lits[i]| > 0 && !IsDigit(lits[i][0])
  }

  /** A run of digits followed by a non-digit (or nothing) is read whole. */
  lemma {:induction false} SpanDigits(d: string, rest: string)
    requires AllDigits(d) && (rest == "" || !IsDigit(rest[0]))
    ensures Span(d + rest, IsDigit) == |d|
    decreases |d|
  {
    if |d| > 0 {
      assert (d + rest)[1..] == d[1..] + rest;
      SpanDigits(d[1..], rest);
    }
  }

  /** What follows a digit run does not start with a digit. */
  predicate RunEnds(rest: string) {
    rest == "" || !IsDigit(rest[0])
  }

  /** One literal and one digit run, read back. */
  lemma FieldLayout(lit: string, d: string, after: string)
    requires |d| > 0 && AllDigits(d) && RunEnds(after)
    ensures Field(lit + (d + after), lit) == Some((DigitsValue(d), after))
  {
    var t := d + after;
    var s := lit + t;
    assert s[..|lit|] == lit && s[|lit|..] == t;
    SpanDigits(d, after);
    assert t[..|d|] == d && t[|d|..] == after;
  }

  /** A laid-out line starts with its first literal. */
  lemma LayoutStart(lits: seq<string>, ds: seq<string>, rest: string)
    requires |ds| == |lits| && |lits| > 0 && Separators(lits)
    ensures RunEnds(Layout(lits, ds) + rest)
  {
    var line := Layout(lits, ds);
    assert line == lits[0] + (ds[0] + Layout(lits[1..], ds[1..]));
    assert line[0] == lits[0][0];
    assert (line + rest)[0] == line[0];
  }

  /** `Fields` reads the first field, then the others from what follows. */
  lemma FieldsCons(line: string, lits: seq<string>, v: nat, after: string, vs: seq<nat>, rest: string)
    requires |lits| > 0 && Field(line, lits[0]) == Some((v, after))
    requires Fields(after, lits[1..]) == Some((vs, rest))
    ensures Fields(line, lits) == Some(([v] + vs, rest))
  {
  }

  /** Reading a laid-out line gives back the values of its runs. */
  lemma {:induction false} FieldsLayout(lits: seq<string>, ds: seq<string>, rest: string)
    requires |ds| == |lits| && Numerals(ds) && Separators(lits) && RunEnds(rest)
    ensures Fields(Layout(lits, ds) + rest, lits) == Some((Values(ds), rest))
    decreases |lits|
  {
    if |lits| > 0 {
      var after := Layout(lits[1..], ds[1..]) + rest;
      assert Separators(lits[1..]) && Numerals(ds[1..]);
      if |lits| > 1 {
        LayoutStart(lits[1..], ds[1..], rest);
      }
      var line := Layout(lits, ds) + rest;
      assert line == lits[0] + (ds[0] + after);
      FieldLayout(lits[0], ds[0], after);
      FieldsLayout(lits[1..], ds[1..], rest);
      FieldsCons(line, lits, DigitsValue(ds[0]), after, Values(ds[1..]), rest);
      assert Values(ds) == [DigitsValue(ds[0])] + Values(ds[1..]);
    } else {
      assert Layout(lits, ds) + rest == rest;
    }
  }

  /** What `Field` reads is the literal, a maximal digit run, and the rest. */
  lemma FieldShape(s: string, lit: string) returns (d: string)
    requires Field(s, lit).Some?
    ensures |d| > 0 && AllDigits(d) && DigitsValue(d) == Field(s, lit).value.0
    ensures s == lit + d + Field(s, lit).value.1
  {
    var t := s[|lit|..];
    var n := Span(t, IsDigit);
    d := t[..n];
    assert s == s[..|lit|] + t[..n] + t[n..];
  }

  /** A field in front of a laid-out remainder gives a laid-out line. */
  lemma ShapeCons(s: string, lits: seq<string>, d: string, rest: string, more: seq<string>, end: string)
    requires |lits| > 0 && |d| > 0 && AllDigits(d) && s == lits[0] + d + rest
    requires |more| == |lits| - 1 && Numerals(more) && rest == Layout(lits[1..], more) + end
    ensures |[d] + more| == |lits| && Numerals([d] + more)
    ensures Values([d] + more) == [DigitsValue(d)] + Values(more)
    ensures s == Layout(lits, [d] + more) + end
  {
    var ds := [d] + more;
    assert ds[1..] == more;
  }

  /** And only laid-out lines are read: whatever `Fields` accepts is literals
      and maximal digit runs in turn. */
  lemma {:induction false} FieldsShape(s: string, lits: seq<string>) returns (ds: seq<string>)
    requires Fields(s, lits).Some?
    ensures |ds| == |lits| && Numerals(ds)
    ensures Values(ds) == Fields(s, lits).value.0
    ensures s == Layout(lits, ds) + Fields(s, lits).value.1
    decreases |lits|
  {
    if |lits| == 0 {
      ds := [];
    } else {
      var d := FieldShape(s, lits[0]);
      var (v, rest) := Field(s, lits[0]).value;
      var (vs, end) := Fields(rest, lits[1..]).value;
      var more := FieldsShape(rest, lits[1..]);
      FieldsCons(s, lits, v, rest, vs, end);
      ShapeCons(s, lits, d, rest, more, end);
      ds := [d] + more;
    }
  }

  /** `_parse_claim` accepts every line `#id @ x,y: wxh` made of digit runs,
      leading zeros included, with or without a final newline. */
  lemma ParseClaimAccepts(ds: seq<string>, end: string)
    requires |ds| == 5 && Numerals(ds) && LineEnd(end)
    ensures ParseClaim(Layout(Pattern, ds) + end) ==
      Ok(Claim(DigitsValue(ds[0]), DigitsValue(ds[1]), DigitsValue(ds[2]),
               DigitsValue(ds[3]), DigitsValue(ds[4])))
  {
    FieldsLayout(Pattern, ds, end);
  }

  /** ... and nothing else: a line it accepts is exactly that layout. */
  lemma ParseClaimShape(line: string) returns (ds: seq<string>, end: string)
    requires ParseClaim(line).Ok?
    ensures |ds| == 5 && Numerals(ds) && LineEnd(end)
    ensures line == Layout(Pattern, ds) + end
    ensures ParseClaim(line).value ==
      Claim(DigitsValue(ds[0]), DigitsValue(ds[1]), DigitsValue(ds[2]),
            DigitsValue(ds[3]), DigitsValue(ds[4]))
  {
    ds := FieldsShape(line, Pattern);
    end := Fields(line, Pattern).value.1;
  }

  /** A claim written out as in the input. */
  function Format(c: Claim): string {
    Layout(Pattern, [NatString(c.id), NatString(c.x), NatString(c.y), NatString(c.width), NatString(c.height)])
  }

  /** Reading a written claim gives it back. */
  lemma ParseFormat(c: Claim)
    ensures ParseClaim(Format(c)) == Ok(c)
    ensures ParseClaim(Format(c) + "\n") == Ok(c)
  {
    var ds := [NatString(c.id), NatString(c.x), NatString(c.y), NatString(c.width), NatString(c.height)];
    DigitsOfNatString(c.id);
    DigitsOfNatString(c.x);
    DigitsOfNatString(c.y);
    DigitsOfNatString(c.width);
    DigitsOfNatString(c.height);
    ParseClaimAccepts(ds, "");
    ParseClaimAccepts(ds, "\n");
    assert Format(c) + "" == Format(c);
  }

  // ---------------------------------------------------------------------------
  // The claims of the input, in order, and the first one that raises

  /** Read the lines one by one with `read`, stopping at the first error. */
  function Collect<T>(read: string -> Result<T>, lines: seq<string>): (r: Result<seq<T>>)
    ensures r.Ok? ==> |r.value| == |lines|
    decreases |lines|
  {
    if |lines| == 0 then Ok([])
    else
      match Collect(read, lines[..|lines| - 1])
      case Err(e) => Err(e)
      case Ok(vs) =>
        match read(lines[|lines| - 1])
        case Err(e) => Err(e)
        case Ok(v) => Ok(vs + [v])
  }

  /** Every line is read when `read` accepts each, and the values are those
      of the lines, in order. */
  lemma {:induction false} CollectOk<T>(read: string -> Result<T>, lines: seq<string>)
    ensures Collect(read, lines).Ok? <==> forall i :: 0 <= i < |lines| ==> read(lines[i]).Ok?
    ensures Collect(read, lines).Ok? ==>
      forall i :: 0 <= i < |lines| ==> Collect(read, lines).value[i] == read(lines[i]).value
    decreases |lines|
  {
    if |lines| > 0 {
      var init := lines[..|lines| - 1];
      CollectOk(read, init);
      assert forall i :: 0 <= i < |init| ==> init[i] == lines[i];
    }
  }

  /** Otherwise the error is that of the first line `read` refuses. */
  lemma {:induction false} CollectError<T>(read: string -> Result<T>, lines: seq<string>) returns (k: nat)
    requires Collect(read, lines).Err?
    ensures k < |lines| && Collect(read, lines[..k]).Ok? && read(lines[k]).Err?
    ensures Collect(read, lines).error == read(lines[k]).error
    decreases |lines|
  {
    var init := lines[..|lines| - 1];
    if Collect(read, init).Err? {
      k := CollectError(read, init);
      assert init[..k] == lines[..k];
    } else {
      k := |lines| - 1;
    }
  }

  /** The next line, read after the lines before it. */
  lemma CollectNext<T>(read: string -> Result<T>, lines: seq<string>, k: nat, done: seq<T>)
    requires k < |lines| && Collect(read, lines[..k]) == Ok(done)
    ensures Collect(read, lines[..k + 1]) ==
      match read(lines[k])
      case Err(e) => Err(e)
      case Ok(v) => Ok(done + [v])
  {
    assert lines[..k + 1][..k] == lines[..k];
  }

  /** Once a line is refused, the whole input fails with its error. */
  lemma {:induction false} CollectFail<T>(read: string -> Result<T>, lines: seq<string>, k: nat)
    requires k <= |lines| && Collect(read, lines[..k]).Err?
    ensures Collect(read, lines) == Collect(read, lines[..k])
    decreases |lines| - k
  {
    if k < |lines| {
      assert lines[..k + 1][..k] == lines[..k];
      CollectFail(read, lines, k + 1);
    } else {
      assert lines[..k] == lines;
    }
  }

  /** One line as the loops see it: the claim, which raises IndexError when its
      inches are visited if it reaches past the sheet. */
  function ReadClaim(line: string): (r: Result<Claim>)
    ensures r.Err? <==> ParseClaim(line).Err? || !Fits(ParseClaim(line).value)
    ensures r.Err? ==> r.error == (if ParseClaim(line).Err? then AttributeError else IndexError)
    ensures r.Ok? ==> r.value == ParseClaim(line).value
  {
    match ParseClaim(line)
    case Err(e) => Err(e)
    case Ok(c) => if Fits(c) then Ok(c) else Err(IndexError)
  }

  /** The claims of `lines`, or the error of the first line that fails. */
  function Claims(lines: seq<string>): Result<seq<Claim>> {
    Collect(ReadClaim, lines)
  }

  // ---------------------------------------------------------------------------
  // How often an inch is claimed

  /** The number of claims of `cs` whose rectangles hold `cell`. */
  function Cover(cs: seq<Claim>, cell: Cell): nat
    decreases |cs|
  {
    if |cs| == 0 then 0
    else Cover(cs[..|cs| - 1], cell) + (if InRect(cs[|cs| - 1], cell) then 1 else 0)
  }

  /** Some claim of `cs` holds `cell`. */
  predicate Claimed(cs: seq<Claim>, cell: Cell) {
    exists i :: 0 <= i < |cs| && InRect(cs[i], cell)
  }

  /** Two different claims of `cs` hold `cell`. */
  predicate Overlapped(cs: seq<Claim>, cell: Cell) {
    exists i, j :: 0 <= i < j < |cs| && InRect(cs[i], cell) && InRect(cs[j], cell)
  }

  /** The count is at least one exactly when some claim holds the inch, and
      at least two exactly when two different claims do. */
  lemma {:induction false} CoverMeaning(cs: seq<Claim>, cell: Cell)
    ensures Cover(cs, cell) >= 1 <==> Claimed(cs, cell)
    ensures Cover(cs, cell) >= 2 <==> Overlapped(cs, cell)
    decreases |cs|
  {
    if |cs| > 0 {
      var init := cs[..|cs| - 1];
      CoverMeaning(init, cell);
      assert forall i :: 0 <= i < |init| ==> init[i] == cs[i];
      if Overlapped(cs, cell) && !Overlapped(init, cell) {
        var i, j :| 0 <= i < j < |cs| && InRect(cs[i], cell) && InRect(cs[j], cell);
        assert j == |cs| - 1;
        assert Claimed(init, cell);
      }
      if Claimed(cs, cell) && !Claimed(init, cell) {
        assert InRect(cs[|cs| - 1], cell);
      }
    }
  }

  /** Adding a claim adds one for each inch it holds. */
  lemma CoverNext(cs: seq<Claim>, c: Claim, cell: Cell)
    ensures Cover(cs + [c], cell) == Cover(cs, cell) + (if InRect(c, cell) then 1 else 0)
  {
    assert (cs + [c])[..|cs|] == cs;
  }

  // ---------------------------------------------------------------------------
  // get_overlap_area

  /** The claims `done` and then the inches `part` of the claim being visited:
      how many of them hold `cell`. */
  function Count(done: seq<Claim>, part: seq<Cell>, cell: Cell): nat {
    Cover(done, cell) + (if cell in part then 1 else 0)
  }

  /** `area_used` marks the inches visited at least once, and `overlap_area`
      holds the inches visited at least twice. */
  ghost predicate Marked(used: array2<bool>, overlap: set<Cell>, done: seq<Claim>, part: seq<Cell>)
    reads used
  {
    used.Length0 == Side && used.Length1 == Side &&
    (forall a, b :: 0 <= a < Side && 0 <= b < Side ==> (used[a, b] <==> Count(done, part, (a, b)) >= 1)) &&
    (forall cell :: cell in overlap <==> Count(done, part, cell) >= 2)
  }

  /** One inch of the loop: an inch already marked is added to
      `overlap_area`, any other is marked. */
  method MarkInch(used: array2<bool>, overlap: set<Cell>, ghost done: seq<Claim>, ghost part: seq<Cell>, cell: Cell)
    returns (overlap': set<Cell>)
    modifies used
    requires Marked(used, overlap, done, part)
    requires cell.0 < Side && cell.1 < Side && cell !in part
    ensures Marked(used, overlap', done, part + [cell])
  {
    var (x, y) := cell;
    if used[x, y] {
      overlap' := overlap + {cell};
    } else {
      overlap' := overlap;
      used[x, y] := true;
    }
  }

  /** An inch of the claim off the sheet means the claim does not fit. */
  lemma OffSheet(c: Claim, t: nat)
    requires t < |Inches(c)| && !(Inches(c)[t].0 < Side && Inches(c)[t].1 < Side)
    ensures !Fits(c)
  {
    InchesShape(c);
    FitsMeaning(c);
    assert Inches(c)[t] in Inches(c);
  }

  /** Each inch of the list is new. */
  lemma InchNew(c: Claim, t: nat)
    requires t < |Inches(c)|
    ensures Inches(c)[t] !in Inches(c)[..t]
    ensures Inches(c)[..t + 1] == Inches(c)[..t] + [Inches(c)[t]]
  {
    InchesShape(c);
  }

  /** Once all its inches are visited, the claim counts like the others. */
  lemma ClaimVisited(used: array2<bool>, overlap: set<Cell>, done: seq<Claim>, c: Claim)
    requires Marked(used, overlap, done, Inches(c))
    ensures Marked(used, overlap, done + [c], [])
  {
    InchesShape(c);
    forall cell: Cell
      ensures Count(done + [c], [], cell) == Count(done, Inches(c), cell)
    {
      CoverNext(done, c, cell);
    }
  }

  /** The loop over one claim's inches.  An inch off the sheet raises
      IndexError, reported as `fits == false`. */
  method MarkClaim(used: array2<bool>, overlap: set<Cell>, ghost done: seq<Claim>, c: Claim)
    returns (fits: bool, overlap': set<Cell>)
    modifies used
    requires Marked(used, overlap, done, [])
    ensures fits <==> Fits(c)
    ensures fits ==> Marked(used, overlap', done + [c], [])
  {
    var inches := Inches(c);
    overlap' := overlap;
    for t := 0 to |inches|
      invariant Marked(used, overlap', done, inches[..t])
      invariant forall i :: 0 <= i < t ==> inches[i].0 < Side && inches[i].1 < Side
    {
      var cell := inches[t];
      if !(cell.0 < Side && cell.1 < Side) {
        OffSheet(c, t);
        return false, overlap';
      }
      InchNew(c, t);
      overlap' := MarkInch(used, overlap', done, inches[..t], cell);
    }
    assert inches[..|inches|] == inches;
    ClaimVisited(used, overlap', done, c);
    FitsAll(c);
    return true, overlap';
  }

  /** A claim all of whose inches are on the sheet fits. */
  lemma FitsAll(c: Claim)
    requires forall t :: 0 <= t < |Inches(c)| ==> Inches(c)[t].0 < Side && Inches(c)[t].1 < Side
    ensures Fits(c)
  {
    InchesShape(c);
    FitsMeaning(c);
    forall cell: Cell | InRect(c, cell)
      ensures cell.0 < Side && cell.1 < Side
    {
      assert cell in Inches(c);
    }
  }

  /** `get_overlap_area(claims)`: the inches that two or more claims hold, or
      the error of the first line that fails. */
  method GetOverlapArea(lines: seq<string>) returns (r: Result<set<Cell>>)
    ensures r.Err? <==> Claims(lines).Err?
    ensures r.Err? ==> r.error == Claims(lines).error
    ensures r.Ok? ==> forall cell :: cell in r.value <==> Overlapped(Claims(lines).value, cell)
  {
    var used := new bool[Side, Side]((i, j) => false);
    var overlap: set<Cell> := {};
    ghost var done: seq<Claim> := [];
    for k := 0 to |lines|
      invariant Claims(lines[..k]) == Ok(done)
      invariant Marked(used, overlap, done, [])
    {
      CollectNext(ReadClaim, lines, k, done);
      var claim := ParseClaim(lines[k]);
      if claim.Err? {
        CollectFail(ReadClaim, lines, k + 1);
        return Err(AttributeError);
      }
      var fits;
      fits, overlap := MarkClaim(used, overlap, done, claim.value);
      if !fits {
        CollectFail(ReadClaim, lines, k + 1);
        return Err(IndexError);
      }
      done := done + [claim.value];
    }
    assert lines[..|lines|] == lines;
    forall cell
      ensures cell in overlap <==> Overlapped(done, cell)
    {
      CoverMeaning(done, cell);
    }
    return Ok(overlap);
  }

  // ---------------------------------------------------------------------------
  // Claims that meet

  /** The rectangles of `a` and `b` share an inch: neither is empty and
      their spans overlap across and down. */
  predicate Meet(a: Claim, b: Claim) {
    a.width > 0 && a.height > 0 && b.width > 0 && b.height > 0 &&
    a.x < b.x + b.width && b.x < a.x + a.width && a.y < b.y + b.height && b.y < a.y + a.height
  }

  /** That is: some inch lies in both. */
  lemma MeetShares(a: Claim, b: Claim)
    ensures Meet(a, b) <==> exists cell: Cell :: InRect(a, cell) && InRect(b, cell)
  {
    if Meet(a, b) {
      var cell: Cell := (if a.x < b.x then b.x else a.x, if a.y < b.y then b.y else a.y);
      assert InRect(a, cell) && InRect(b, cell);
    }
  }

  /** Claim `j` of `cs` shares an inch with another claim of `cs`. */
  predicate Meets(cs: seq<Claim>, j: nat)
    requires j < |cs|
  {
    exists i :: 0 <= i < |cs| && i != j && Meet(cs[i], cs[j])
  }

  /** No two claims have the same id. */
  predicate UniqueIds(cs: seq<Claim>) {
    forall i, j :: 0 <= i < j < |cs| ==> cs[i].id != cs[j].id
  }

  /** The ids of the claims, in order. */
  function IdList(cs: seq<Claim>): (ids: seq<nat>)
    ensures |ids| == |cs|
    ensures forall i :: 0 <= i < |cs| ==> ids[i] == cs[i].id
  {
    seq(|cs|, i requires 0 <= i < |cs| => cs[i].id)
  }

  /** The ids of the claims of `cs` that hold `cell`, in order. */
  function Ids(cs: seq<Claim>, cell: Cell): seq<nat>
    decreases |cs|
  {
    if |cs| == 0 then []
    else Ids(cs[..|cs| - 1], cell) + (if InRect(cs[|cs| - 1], cell) then [cs[|cs| - 1].id] else [])
  }

  /** An id is listed exactly when a claim with that id holds the inch. */
  lemma {:induction false} IdsMeaning(cs: seq<Claim>, cell: Cell)
    ensures forall id :: id in Ids(cs, cell) <==> exists i :: 0 <= i < |cs| && InRect(cs[i], cell) && cs[i].id == id
    decreases |cs|
  {
    if |cs| > 0 {
      var init := cs[..|cs| - 1];
      IdsMeaning(init, cell);
      assert forall i :: 0 <= i < |init| ==> init[i] == cs[i];
    }
  }

  lemma IdsNext(cs: seq<Claim>, c: Claim, cell: Cell)
    ensures Ids(cs + [c], cell) == Ids(cs, cell) + (if InRect(c, cell) then [c.id] else [])
  {
    assert (cs + [c])[..|cs|] == cs;
  }

  // ---------------------------------------------------------------------------
  // get_non_overlap

  /** `area_used` lists, for each inch, the ids of the claims visited that
      hold it, and `id` for the inches of `part` of the claim being visited. */
  ghost predicate Listed(grid: array2<seq<nat>>, done: seq<Claim>, part: seq<Cell>, id: nat)
    reads grid
  {
    grid.Length0 == Side && grid.Length1 == Side &&
    forall a, b :: 0 <= a < Side && 0 <= b < Side ==>
      grid[a, b] == Ids(done, (a, b)) + (if (a, b) in part then [id] else [])
  }

  /** `claim_map` and the `overlap` flags have the same keys, among them every
      id visited and every id of the key order; each key maps to a claim
      visited with that id. */
  ghost predicate Registry(claimMap: map<nat, Claim>, flags: map<nat, bool>, order: seq<nat>, done: seq<Claim>) {
    claimMap.Keys == flags.Keys &&
    (forall id :: id in claimMap ==> claimMap[id].id == id && claimMap[id] in done) &&
    (forall i :: 0 <= i < |done| ==> done[i].id in claimMap) &&
    (forall i :: 0 <= i < |order| ==> order[i] in claimMap)
  }

  /** Some inch of `part` lies in `d`. */
  predicate Touches(d: Claim, part: seq<Cell>) {
    exists s :: 0 <= s < |part| && InRect(d, part[s])
  }

  /** With distinct ids, while the inches `part` of claim `c` are visited: the
      flag of an earlier claim says it meets another earlier claim or holds an
      inch of `part`, and the flag of `c` says an earlier claim does. */
  ghost predicate FlagsDuring(flags: map<nat, bool>, done: seq<Claim>, c: Claim, part: seq<Cell>) {
    (forall j :: 0 <= j < |done| ==>
       done[j].id in flags && (flags[done[j].id] <==> Meets(done, j) || Touches(done[j], part))) &&
    c.id in flags && (flags[c.id] <==> exists j :: 0 <= j < |done| && Touches(done[j], part))
  }

  /** With distinct ids, once the claims `done` are visited: a claim's flag
      says it shares an inch with another claim. */
  ghost predicate FlagsAfter(flags: map<nat, bool>, done: seq<Claim>) {
    forall j :: 0 <= j < |done| ==> done[j].id in flags && (flags[done[j].id] <==> Meets(done, j))
  }

  /** With distinct ids, `claim_map` maps each id to its claim and its keys
      come in input order. */
  ghost predicate InOrder(claimMap: map<nat, Claim>, order: seq<nat>, done: seq<Claim>) {
    order == IdList(done) && forall j :: 0 <= j < |done| ==> done[j].id in claimMap && claimMap[done[j].id] == done[j]
  }

  /** `for claim_id in area_used[x][y]: claim_map[claim_id].overlap = True`. */
  method RaiseFlags(flags: map<nat, bool>, ids: seq<nat>) returns (flags': map<nat, bool>)
    requires forall u :: 0 <= u < |ids| ==> ids[u] in flags
    ensures flags'.Keys == flags.Keys
    ensures forall id :: id in flags ==> (flags'[id] <==> flags[id] || id in ids)
  {
    flags' := flags;
    for u := 0 to |ids|
      invariant flags'.Keys == flags.Keys
      invariant forall id :: id in flags ==> (flags'[id] <==> flags[id] || id in ids[..u])
    {
      assert ids[..u + 1] == ids[..u] + [ids[u]];
      flags' := flags'[ids[u] := true];
    }
    assert ids[..|ids|] == ids;
  }

  /** One more inch touches `d` when the inches before did or it lies in `d`. */
  lemma TouchesNext(d: Claim, part: seq<Cell>, cell: Cell)
    ensures Touches(d, part + [cell]) <==> Touches(d, part) || InRect(d, cell)
  {
    assert (part + [cell])[|part|] == cell;
    assert forall s :: 0 <= s < |part| ==> (part + [cell])[s] == part[s];
  }

  /** With distinct ids, an id listed at `cell` is that of claim `j` exactly
      when claim `j` holds `cell`. */
  lemma ListedIdOf(done: seq<Claim>, c: Claim, j: nat, cell: Cell)
    requires UniqueIds(done + [c]) && j < |done|
    ensures done[j].id != c.id
    ensures done[j].id in Ids(done, cell) <==> InRect(done[j], cell)
  {
    IdsMeaning(done, cell);
    OtherIds(done, c, j);
  }

  /** With distinct ids, the other claims have other ids. */
  lemma OtherIds(done: seq<Claim>, c: Claim, j: nat)
    requires UniqueIds(done + [c]) && j < |done|
    ensures done[j].id != c.id
    ensures forall i :: 0 <= i < |done| && i != j ==> done[i].id != done[j].id
  {
    var all := done + [c];
    assert all[j] == done[j] && all[|done|] == c;
    forall i | 0 <= i < |done| && i != j
      ensures done[i].id != done[j].id
    {
      assert all[i] == done[i];
      if i < j { assert all[i].id != all[j].id; }
      if j < i { assert all[j].id != all[i].id; }
    }
  }

  /** With distinct ids, the claim being visited has an id of its own. */
  lemma NewId(done: seq<Claim>, c: Claim)
    requires UniqueIds(done + [c])
    ensures forall i :: 0 <= i < |done| ==> done[i].id != c.id
  {
    var all := done + [c];
    forall i | 0 <= i < |done|
      ensures done[i].id != c.id
    {
      assert all[i] == done[i] && all[|done|] == c;
    }
  }

  /** Some earlier claim holds `cell` when its list is not empty. */
  lemma ListedSome(done: seq<Claim>, cell: Cell)
    ensures |Ids(done, cell)| >= 1 <==> exists j :: 0 <= j < |done| && InRect(done[j], cell)
  {
    IdsMeaning(done, cell);
    if |Ids(done, cell)| >= 1 {
      assert Ids(done, cell)[0] in Ids(done, cell);
    }
  }

  /** Visiting one more inch keeps the flags right. */
  lemma FlagsStep(flags: map<nat, bool>, flags': map<nat, bool>, done: seq<Claim>, c: Claim,
                  part: seq<Cell>, cell: Cell)
    requires UniqueIds(done + [c]) && FlagsDuring(flags, done, c, part)
    requires flags'.Keys == flags.Keys
    requires forall id :: id in flags && id != c.id ==> (flags'[id] <==> flags[id] || id in Ids(done, cell))
    requires flags'[c.id] <==> flags[c.id] || |Ids(done, cell)| >= 1
    ensures FlagsDuring(flags', done, c, part + [cell])
  {
    forall j | 0 <= j < |done|
      ensures flags'[done[j].id] <==> Meets(done, j) || Touches(done[j], part + [cell])
    {
      ListedIdOf(done, c, j, cell);
      TouchesNext(done[j], part, cell);
    }
    ListedSome(done, cell);
    forall j | 0 <= j < |done|
      ensures Touches(done[j], part + [cell]) <==> Touches(done[j], part) || InRect(done[j], cell)
    {
      TouchesNext(done[j], part, cell);
    }
  }

  /** One inch of the loop of `get_non_overlap`: when other claims hold it,
      this claim and each of them are flagged; then its id is listed there. */
  method ListInch(grid: array2<seq<nat>>, flags: map<nat, bool>, ghost done: seq<Claim>, ghost part: seq<Cell>,
                  c: Claim, cell: Cell)
    returns (flags': map<nat, bool>)
    modifies grid
    requires Listed(grid, done, part, c.id)
    requires cell.0 < Side && cell.1 < Side && cell !in part
    requires c.id in flags && forall i :: 0 <= i < |done| ==> done[i].id in flags
    requires UniqueIds(done + [c]) ==> FlagsDuring(flags, done, c, part)
    ensures Listed(grid, done, part + [cell], c.id)
    ensures flags'.Keys == flags.Keys
    ensures UniqueIds(done + [c]) ==> FlagsDuring(flags', done, c, part + [cell])
  {
    var (x, y) := cell;
    var here := grid[x, y];
    assert here == Ids(done, cell);
    IdsMeaning(done, cell);
    assert forall u :: 0 <= u < |here| ==> here[u] in flags by {
      forall u | 0 <= u < |here| ensures here[u] in flags {
        assert here[u] in here;
      }
    }
    flags' := flags;
    if |here| >= 1 {
      flags' := flags'[c.id := true];
      flags' := RaiseFlags(flags', here);
    }
    grid[x, y] := here + [c.id];
    if UniqueIds(done + [c]) {
      NewId(done, c);
      assert c.id !in here;
      FlagsStep(flags, flags', done, c, part, cell);
    }
  }

  /** Once all its inches are listed, the claim is listed like the others. */
  lemma ClaimListed(grid: array2<seq<nat>>, done: seq<Claim>, c: Claim)
    requires Listed(grid, done, Inches(c), c.id)
    ensures Listed(grid, done + [c], [], 0)
  {
    InchesShape(c);
    forall a, b | 0 <= a < Side && 0 <= b < Side
      ensures grid[a, b] == Ids(done + [c], (a, b))
    {
      IdsNext(done, c, (a, b));
    }
  }

  /** Once all its inches are visited, claim `c` meets exactly the claims it
      shares an inch with. */
  lemma FlagsVisited(flags: map<nat, bool>, done: seq<Claim>, c: Claim)
    requires UniqueIds(done + [c]) && FlagsDuring(flags, done, c, Inches(c))
    ensures FlagsAfter(flags, done + [c])
  {
    InchesShape(c);
    var all := done + [c];
    forall j | 0 <= j < |done|
      ensures Touches(done[j], Inches(c)) <==> Meet(done[j], c)
    {
      MeetShares(done[j], c);
      if Meet(done[j], c) {
        var cell: Cell :| InRect(done[j], cell) && InRect(c, cell);
        assert cell in Inches(c);
      }
    }
    forall j | 0 <= j < |all|
      ensures flags[all[j].id] <==> Meets(all, j)
    {
      if j < |done| {
        assert all[j] == done[j] && all[|done|] == c;
        assert forall i :: 0 <= i < |done| ==> all[i] == done[i];
        if Meets(all, j) && !Meets(done, j) {
          var i :| 0 <= i < |all| && i != j && Meet(all[i], all[j]);
          assert i == |done|;
          MeetSymmetric(c, done[j]);
        }
      } else {
        assert forall i :: 0 <= i < |done| ==> all[i] == done[i];
        forall i | 0 <= i < |done| ensures Meet(all[i], all[j]) <==> Meet(done[i], c) {}
      }
    }
  }

  lemma MeetSymmetric(a: Claim, b: Claim)
    ensures Meet(a, b) <==> Meet(b, a)
  {
  }

  /** The loop over one claim's inches in `get_non_overlap`.  An inch off the
      sheet raises IndexError, reported as `fits == false`. */
  method ListClaim(grid: array2<seq<nat>>, flags: map<nat, bool>, ghost done: seq<Claim>, c: Claim)
    returns (fits: bool, flags': map<nat, bool>)
    modifies grid
    requires Listed(grid, done, [], 0)
    requires c.id in flags && forall i :: 0 <= i < |done| ==> done[i].id in flags
    requires UniqueIds(done + [c]) ==> FlagsDuring(flags, done, c, [])
    ensures fits <==> Fits(c)
    ensures flags'.Keys == flags.Keys
    ensures fits ==> Listed(grid, done + [c], [], 0)
    ensures fits && UniqueIds(done + [c]) ==> FlagsAfter(flags', done + [c])
  {
    var inches := Inches(c);
    flags' := flags;
    assert Listed(grid, done, inches[..0], c.id);
    for t := 0 to |inches|
      invariant Listed(grid, done, inches[..t], c.id)
      invariant flags'.Keys == flags.Keys
      invariant UniqueIds(done + [c]) ==> FlagsDuring(flags', done, c, inches[..t])
      invariant forall i :: 0 <= i < t ==> inches[i].0 < Side && inches[i].1 < Side
    {
      var cell := inches[t];
      if !(cell.0 < Side && cell.1 < Side) {
        OffSheet(c, t);
        return false, flags';
      }
      InchNew(c, t);
      flags' := ListInch(grid, flags', done, inches[..t], c, cell);
    }
    assert inches[..|inches|] == inches;
    ClaimListed(grid, done, c);
    if UniqueIds(done + [c]) {
      FlagsVisited(flags', done, c);
    }
    FitsAll(c);
    return true, flags';
  }

  /** Key `i` of the order is the first whose flag is down. */
  predicate ClearAt(order: seq<nat>, flags: map<nat, bool>, i: int) {
    0 <= i < |order| && (forall h :: 0 <= h <= i ==> order[h] in flags) &&
    !flags[order[i]] && forall h :: 0 <= h < i ==> flags[order[h]]
  }

  /** `for claim in claim_map.values(): if not claim.overlap: return claim`,
      the values taken in the order their keys were first added. */
  method FindClear(order: seq<nat>, flags: map<nat, bool>, claimMap: map<nat, Claim>) returns (r: Option<Claim>)
    requires forall i :: 0 <= i < |order| ==> order[i] in flags && order[i] in claimMap
    ensures r.None? <==> forall i :: 0 <= i < |order| ==> flags[order[i]]
    ensures r.Some? ==> exists i :: ClearAt(order, flags, i) && r.value == claimMap[order[i]]
  {
    for i := 0 to |order|
      invariant forall h :: 0 <= h < i ==> flags[order[h]]
    {
      if !flags[order[i]] {
        return Some(claimMap[order[i]]);
      }
    }
    return None;
  }

  /** Claim `j` is the first of `cs` that meets no other claim. */
  predicate FirstAlone(cs: seq<Claim>, j: nat) {
    j < |cs| && !Meets(cs, j) && forall i :: 0 <= i < j ==> Meets(cs, i)
  }

  /** A claim with a new id joins `claim_map` last, with its flag down. */
  lemma Register(claimMap: map<nat, Claim>, flags: map<nat, bool>, order: seq<nat>, done: seq<Claim>, c: Claim)
    requires Registry(claimMap, flags, order, done)
    requires UniqueIds(done + [c]) && FlagsAfter(flags, done) && InOrder(claimMap, order, done)
    ensures c.id !in claimMap
    ensures FlagsDuring(flags[c.id := false], done, c, [])
    ensures InOrder(claimMap[c.id := c], order + [c.id], done + [c])
  {
    NewId(done, c);
    var all := done + [c];
    assert forall j :: 0 <= j < |done| ==> all[j] == done[j];
    assert IdList(all) == IdList(done) + [c.id];
  }

  /** Distinct ids stay distinct in a prefix. */
  lemma UniquePrefix(done: seq<Claim>, c: Claim)
    requires UniqueIds(done + [c])
    ensures UniqueIds(done)
  {
    assert forall i :: 0 <= i < |done| ==> (done + [c])[i] == done[i];
  }

  /** What `get_non_overlap` keeps between claims: the grid lists the ids on
      each inch, `claim_map` and the flags are registered, and with distinct
      ids the flags are exact and the key order is input order. */
  ghost predicate Kept(grid: array2<seq<nat>>, claimMap: map<nat, Claim>, flags: map<nat, bool>, order: seq<nat>, done: seq<Claim>)
    reads grid
  {
    Listed(grid, done, [], 0) && Registry(claimMap, flags, order, done) &&
    (UniqueIds(done) ==> FlagsAfter(flags, done) && InOrder(claimMap, order, done))
  }

  /** The answer of `get_non_overlap` for claims with distinct ids: the first
      claim that meets no other, or None when every claim meets another. */
  ghost predicate Alone(cs: seq<Claim>, found: Option<Claim>) {
    (found.None? <==> forall j :: 0 <= j < |cs| ==> Meets(cs, j)) &&
    (found.Some? ==> exists j: nat :: FirstAlone(cs, j) && found.value == cs[j])
  }

  /** One pass of the first loop of `get_non_overlap`: store the claim in
      `claim_map` with its flag down, then list its id on each of its inches
      and raise the flags of the claims already there. */
  method AddClaim(grid: array2<seq<nat>>, claimMap: map<nat, Claim>, flags: map<nat, bool>, order: seq<nat>,
                  ghost done: seq<Claim>, c: Claim)
    returns (fits: bool, claimMap': map<nat, Claim>, flags': map<nat, bool>, order': seq<nat>)
    modifies grid
    requires Kept(grid, claimMap, flags, order, done)
    ensures fits <==> Fits(c)
    ensures fits ==> Kept(grid, claimMap', flags', order', done + [c])
  {
    if UniqueIds(done + [c]) {
      UniquePrefix(done, c);
      Register(claimMap, flags, order, done, c);
    }
    order' := order;
    if c.id !in claimMap {
      order' := order + [c.id];
    }
    claimMap' := claimMap[c.id := c];
    flags' := flags[c.id := false];
    fits, flags' := ListClaim(grid, flags', done, c);
  }

  /** `get_non_overlap(claims)`: with distinct ids, the first claim in input
      order that shares no inch with any other claim, or None when every claim
      does; with repeated ids, some claim of the input or None.  A line that
      fails raises the error of the first such line. */
  method GetNonOverlap(lines: seq<string>) returns (r: Result<Option<Claim>>)
    ensures r.Err? <==> Claims(lines).Err?
    ensures r.Err? ==> r.error == Claims(lines).error
    ensures r.Ok? && r.value.Some? ==> r.value.value in Claims(lines).value
    ensures r.Ok? && UniqueIds(Claims(lines).value) ==> Alone(Claims(lines).value, r.value)
  {
    var grid := new seq<nat>[Side, Side]((i, j) => []);
    var claimMap: map<nat, Claim> := map[];
    var flags: map<nat, bool> := map[];
    var order: seq<nat> := [];
    ghost var done: seq<Claim> := [];
    for k := 0 to |lines|
      invariant Claims(lines[..k]) == Ok(done)
      invariant Kept(grid, claimMap, flags, order, done)
    {
      CollectNext(ReadClaim, lines, k, done);
      var claim := ParseClaim(lines[k]);
      if claim.Err? {
        CollectFail(ReadClaim, lines, k + 1);
        return Err(AttributeError);
      }
      var fits;
      fits, claimMap, flags, order := AddClaim(grid, claimMap, flags, order, done, claim.value);
      if !fits {
        CollectFail(ReadClaim, lines, k + 1);
        return Err(IndexError);
      }
      done := done + [claim.value];
    }
    assert lines[..|lines|] == lines;
    var found := FindClear(order, flags, claimMap);
    ClearIsAlone(order, flags, claimMap, done, found);
    return Ok(found);
  }

  /** With distinct ids, what `FindClear` finds is the first claim alone. */
  lemma ClearIsAlone(order: seq<nat>, flags: map<nat, bool>, claimMap: map<nat, Claim>, done: seq<Claim>, found: Option<Claim>)
    requires Registry(claimMap, flags, order, done)
    requires UniqueIds(done) ==> FlagsAfter(flags, done) && InOrder(claimMap, order, done)
    requires found.None? <==> forall i :: 0 <= i < |order| ==> flags[order[i]]
    requires found.Some? ==> exists i :: ClearAt(order, flags, i) && found.value == claimMap[order[i]]
    ensures found.Some? ==> found.value in done
    ensures UniqueIds(done) ==> Alone(done, found)
  {
    if found.Some? {
      var i :| ClearAt(order, flags, i) && found.value == claimMap[order[i]];
      if UniqueIds(done) {
        assert FirstAlone(done, i);
      }
    }
  }

  /** The three claims of the puzzle's example. */
  const Example: seq<Claim> := [Claim(1, 1, 3, 4, 4), Claim(2, 3, 1, 4, 4), Claim(3, 5, 5, 2, 2)]

  /** The example's first line reads as claim 1. */
  lemma ExampleLine()
    ensures ReadClaim("#1 @ 1,3: 4x4\n") == Ok(Claim(1, 1, 3, 4, 4))
  {
    var ds := ["1", "1", "3", "4", "4"];
    var line := Layout(Pattern, ds) + "\n";
    assert line == "#1 @ 1,3: 4x4\n";
    ParseClaimAccepts(ds, "\n");
    assert DigitsValue("1") == 1 && DigitsValue("3") == 3 && DigitsValue("4") == 4;
    assert ParseClaim(line) == Ok(Claim(1, 1, 3, 4, 4));
    assert Fits(Claim(1, 1, 3, 4, 4));
  }

  /** In the example the four inches in columns 3 and 4 of rows 3 and 4 are
      claimed twice, and claim 3 is the one that overlaps no other. */
  lemma ExampleOverlap()
    ensures forall cell: Cell :: Overlapped(Example, cell) <==> cell in {(3, 3), (4, 3), (3, 4), (4, 4)}
    ensures Alone(Example, Some(Claim(3, 5, 5, 2, 2)))
  {
    forall cell: Cell
      ensures Overlapped(Example, cell) <==> cell in {(3, 3), (4, 3), (3, 4), (4, 4)}
    {
      if cell in {(3, 3), (4, 3), (3, 4), (4, 4)} {
        assert InRect(Example[0], cell) && InRect(Example[1], cell);
      }
    }
    assert Meet(Example[1], Example[0]) && Meet(Example[0], Example[1]);
    assert Meets(Example, 0) && Meets(Example, 1);
    assert FirstAlone(Example, 2);
  }
}
