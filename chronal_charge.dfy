/** Chronal Charge (2018 day 11): a grid of fuel cells whose power comes from
    a formula on their coordinates and a serial number, square totals kept in
    per-cell caches and grown one size at a time, and the search for the
    square with the largest total. */
module ChronalCharge {
  import opened Wrappers

  // ---------------------------------------------------------------------------
  // The power of one cell
  // ---------------------------------------------------------------------------

  /** `calculate_power`: the hundreds digit of `((x + 10) * y + serial) * (x + 10)`,
      minus 5.  Python's `//` and `%` by a positive divisor round toward
      negative infinity, as Dafny's `/` and `%` do by a positive divisor. */
  function CalculatePower(serial: int, x: int, y: int): (p: int)
    ensures -5 <= p <= 4
  {
    var rackId := x + 10;
    var level := (rackId * y + serial) * rackId;
    (level / 100) % 10 - 5
  }

  /** Division by 1000 is determined by quotient and remainder. */
  lemma DivMod1000(n: int, q: int, r: int)
    requires n == q * 1000 + r && 0 <= r < 1000
    ensures n % 1000 == r
  {
  }

  /** The power plus 5 is the hundreds digit of the level: the last three
      decimal digits of the level are that digit followed by the last two. */
  lemma PowerIsHundredsDigit(serial: int, x: int, y: int)
    ensures var level := ((x + 10) * y + serial) * (x + 10);
      level % 1000 == (CalculatePower(serial, x, y) + 5) * 100 + level % 100
  {
    var level := ((x + 10) * y + serial) * (x + 10);
    var q := level / 100;
    var d := q % 10;
    assert level == q * 100 + level % 100;
    assert q == (q / 10) * 10 + d;
    assert level == (q / 10) * 1000 + (d * 100 + level % 100);
    DivMod1000(level, q / 10, d * 100 + level % 100);
  }

  /** The cell at 3,5 of the grid with serial number 8 has power 4. */
  lemma PowerExample()
    ensures CalculatePower(8, 3, 5) == 4
  {
  }

  // ---------------------------------------------------------------------------
  // Totals of strips and squares, defined directly
  // ---------------------------------------------------------------------------

  /** The total of the `n` cells from x,y to the right. */
  function Row(serial: int, x: int, y: int, n: nat): int {
    if n == 0 then 0 else Row(serial, x, y, n - 1) + CalculatePower(serial, x + n - 1, y)
  }

  /** The total of the `n` cells from x,y downward. */
  function Col(serial: int, x: int, y: int, n: nat): int {
    if n == 0 then 0 else Col(serial, x, y, n - 1) + CalculatePower(serial, x, y + n - 1)
  }

  /** The total of the first `k` rows, `w` cells wide, from x,y. */
  function Block(serial: int, x: int, y: int, w: nat, k: nat): int {
    if k == 0 then 0 else Block(serial, x, y, w, k - 1) + Row(serial, x, y + k - 1, w)
  }

  /** The total of the `n` by `n` square whose top-left cell is x,y. */
  function Square(serial: int, x: int, y: int, n: nat): int {
    Block(serial, x, y, n, n)
  }

  /** Widening a block by one cell adds the column to its right. */
  lemma {:induction false} BlockWider(serial: int, x: int, y: int, w: nat, k: nat)
    ensures Block(serial, x, y, w + 1, k) == Block(serial, x, y, w, k) + Col(serial, x + w, y, k)
  {
    if k > 0 {
      BlockWider(serial, x, y, w, k - 1);
    }
  }

  /** The recurrence of `calculate_square_power`: the square of size `n` is
      the square of size `n - 1`, the strip below it, the strip to its right
      and the corner cell. */
  lemma SquareGrows(serial: int, x: int, y: int, n: nat)
    requires n >= 1
    ensures Square(serial, x, y, n) ==
      Square(serial, x, y, n - 1) + Row(serial, x, y + n - 1, n - 1) + Col(serial, x + n - 1, y, n - 1) +
      CalculatePower(serial, x + n - 1, y + n - 1)
  {
    BlockWider(serial, x, y, n - 1, n - 1);
  }

  /** A strip of `n` cells totals between -5n and 4n. */
  lemma {:induction false} RowBounds(serial: int, x: int, y: int, n: nat)
    ensures -5 * n <= Row(serial, x, y, n) <= 4 * n
  {
    if n > 0 {
      RowBounds(serial, x, y, n - 1);
    }
  }

  /** `k` rows of `w` cells total between -5wk and 4wk. */
  lemma {:induction false} BlockBounds(serial: int, x: int, y: int, w: nat, k: nat)
    ensures -5 * (w * k) <= Block(serial, x, y, w, k) <= 4 * (w * k)
  {
    if k > 0 {
      BlockBounds(serial, x, y, w, k - 1);
      RowBounds(serial, x, y + k - 1, w);
      assert w * k == w * (k - 1) + w;
    }
  }

  /** An `n` by `n` square totals between -5n² and 4n². */
  lemma SquareBounds(serial: int, x: int, y: int, n: nat)
    ensures -5 * (n * n) <= Square(serial, x, y, n) <= 4 * (n * n)
  {
    BlockBounds(serial, x, y, n, n);
  }

  /** With serial number 18 the 3x3 square at 33,45 totals 29. */
  lemma SquareExample()
    ensures Square(18, 33, 45, 3) == 29
  {
    assert Row(18, 33, 45, 3) == 4 + 4 + 4;
    assert Row(18, 33, 46, 3) == 3 + 3 + 4;
    assert Row(18, 33, 47, 3) == 1 + 2 + 4;
  }

  // ---------------------------------------------------------------------------
  // Caches
  // ---------------------------------------------------------------------------

  /** Python's truth value of an optional integer: `None` and `0` are false. */
  predicate Truthy(c: Option<int>) {
    c.Some? && c.value != 0
  }

  /** A cache the getters may use for the total `v`: one they would recompute
      (it is false) or one that already holds `v`. */
  predicate Usable(c: Option<int>, v: int) {
    !Truthy(c) || c == Some(v)
  }

  /** A fuel cell: its coordinates, its power and the cached totals of the
      square, the row strip and the column strip last computed from it. */
  class Power {
    const serialNumber: int
    const x: int
    const y: int
    /** `self.power`.  `get_power` recomputes it when it is 0, which writes
        the same value back, so it never changes. */
    const power: int := CalculatePower(serialNumber, x, y)
    var sqrtPower: Option<int>
    var colPower: Option<int>
    var rowPower: Option<int>

    constructor (x: int, y: int, serialNumber: int)
      ensures this.x == x && this.y == y && this.serialNumber == serialNumber
      ensures sqrtPower == None && colPower == None && rowPower == None
    {
      this.x := x;
      this.y := y;
      this.serialNumber := serialNumber;
      sqrtPower := None;
      colPower := None;
      rowPower := None;
    }

    /** `get_power`: the formula's value for this cell. */
    function GetPower(): (p: int)
      ensures p == CalculatePower(serialNumber, x, y)
      ensures -5 <= p <= 4
    {
      power
    }

    /** `calculate_square_power`: cache the total of the `size` by `size`
        square whose top-left cell is this one. */
    method CalculateSquarePower(grid: PowerGrid, size: nat)
      requires grid.Laid() && grid.serialNumber == serialNumber && grid.Covers(x, y, size, size)
      modifies this
      ensures sqrtPower == Some(Square(serialNumber, x, y, size))
      ensures colPower == old(colPower) && rowPower == old(rowPower)
    {
      var total := 0;
      for i := 0 to size
        invariant total == Block(serialNumber, x, y, size, i)
      {
        for j := 0 to size
          invariant total == Block(serialNumber, x, y, size, i) + Row(serialNumber, x, y + i, j)
        {
          var cell := grid.GetCellPowers(x + j, y + i);
          total := total + cell.value.GetPower();
        }
      }
      sqrtPower := Some(total);
    }

    /** `calculate_row_power`: cache the total of the `size` cells from this
        one to the right. */
    method CalculateRowPower(grid: PowerGrid, size: nat)
      requires grid.Laid() && grid.serialNumber == serialNumber && grid.Covers(x, y, size, 1)
      modifies this
      ensures rowPower == Some(Row(serialNumber, x, y, size))
      ensures sqrtPower == old(sqrtPower) && colPower == old(colPower)
    {
      var total := 0;
      for i := 0 to size
        invariant total == Row(serialNumber, x, y, i)
      {
        var cell := grid.GetCellPowers(x + i, y);
        total := total + cell.value.GetPower();
      }
      rowPower := Some(total);
    }

    /** `calculate_col_power`: cache the total of the `size` cells from this
        one downward. */
    method CalculateColPower(grid: PowerGrid, size: nat)
      requires grid.Laid() && grid.serialNumber == serialNumber && grid.Covers(x, y, 1, size)
      modifies this
      ensures colPower == Some(Col(serialNumber, x, y, size))
      ensures sqrtPower == old(sqrtPower) && rowPower == old(rowPower)
    {
      var total := 0;
      for i := 0 to size
        invariant total == Col(serialNumber, x, y, i)
      {
        var cell := grid.GetCellPowers(x, y + i);
        total := total + cell.value.GetPower();
      }
      colPower := Some(total);
    }

    /** `get_previous_sqrt_power`: the cached square total, computed first
        when the cache is false. */
    method GetPreviousSqrtPower(grid: PowerGrid, size: nat) returns (p: int)
      requires grid.Laid() && grid.serialNumber == serialNumber && grid.Covers(x, y, size, size)
      modifies this
      ensures p == (if Truthy(old(sqrtPower)) then old(sqrtPower).value else Square(serialNumber, x, y, size))
      ensures sqrtPower == Some(p)
      ensures colPower == old(colPower) && rowPower == old(rowPower)
    {
      if !Truthy(sqrtPower) {
        CalculateSquarePower(grid, size);
      }
      p := sqrtPower.value;
    }

    /** `get_previous_row_power`: the cached row total, computed first when
        the cache is false. */
    method GetPreviousRowPower(grid: PowerGrid, size: nat) returns (p: int)
      requires grid.Laid() && grid.serialNumber == serialNumber && grid.Covers(x, y, size, 1)
      modifies this
      ensures p == (if Truthy(old(rowPower)) then old(rowPower).value else Row(serialNumber, x, y, size))
      ensures rowPower == Some(p)
      ensures sqrtPower == old(sqrtPower) && colPower == old(colPower)
    {
      if !Truthy(rowPower) {
        CalculateRowPower(grid, size);
      }
      p := rowPower.value;
    }

    /** `get_previous_col_power`: the cached column total, computed first
        when the cache is false. */
    method GetPreviousColPower(grid: PowerGrid, size: nat) returns (p: int)
      requires grid.Laid() && grid.serialNumber == serialNumber && grid.Covers(x, y, 1, size)
      modifies this
      ensures p == (if Truthy(old(colPower)) then old(colPower).value else Col(serialNumber, x, y, size))
      ensures colPower == Some(p)
      ensures sqrtPower == old(sqrtPower) && rowPower == old(rowPower)
    {
      if !Truthy(colPower) {
        CalculateColPower(grid, size);
      }
      p := colPower.value;
    }
  }

  /** Python's reading of an index that `-n <= i < n` admits. */
  function Wrap(i: int, n: nat): nat
    requires -(n as int) <= i < n
  {
    if i < 0 then i + n else i
  }

  /** `PowerGird`: the fuel cells in a `h` by `w` array, the cell at x,y
      stored at `data[x - 1, y - 1]`. */
  class PowerGrid {
    const data: array2<Power>
    /** The serial number every cell was made with. */
    ghost const serialNumber: int

    /** Every slot holds the cell of its own coordinates. */
    ghost predicate Laid()
      reads data
    {
      forall i, j :: 0 <= i < data.Length0 && 0 <= j < data.Length1 ==>
        data[i, j].x == i + 1 && data[i, j].y == j + 1 && data[i, j].serialNumber == serialNumber
    }

    /** The rectangle `w` cells wide and `h` tall from x,y lies in the grid. */
    predicate Covers(x: int, y: int, w: nat, h: nat) {
      w == 0 || h == 0 || (1 <= x && x + w - 1 <= data.Length0 && 1 <= y && y + h - 1 <= data.Length1)
    }

    /** The slot of the cell x,y. */
    function At(x: int, y: int): Power
      requires 1 <= x <= data.Length0 && 1 <= y <= data.Length1
      reads data
    {
      data[x - 1, y - 1]
    }

    /** Every cell of the grid. */
    ghost function Cells(): set<Power>
      reads data
    {
      set i, j | 0 <= i < data.Length0 && 0 <= j < data.Length1 :: data[i, j]
    }

    /** `PowerGird(w, h, serial_number)`: `h` rows of `w` fresh cells. */
    constructor (w: nat, h: nat, serialNumber: int)
      ensures data.Length0 == h && data.Length1 == w && this.serialNumber == serialNumber
      ensures Laid()
      ensures forall i, j :: 0 <= i < h && 0 <= j < w ==>
        data[i, j].sqrtPower == None && data[i, j].colPower == None && data[i, j].rowPower == None
    {
      var placeholder := new Power(0, 0, serialNumber);
      var cells := new Power[h, w]((i, j) => placeholder);
      for i := 0 to h
        invariant forall a, b :: 0 <= a < i && 0 <= b < w ==>
          cells[a, b].x == a + 1 && cells[a, b].y == b + 1 && cells[a, b].serialNumber == serialNumber &&
          cells[a, b].sqrtPower == None && cells[a, b].colPower == None && cells[a, b].rowPower == None
      {
        for j := 0 to w
          invariant forall a, b :: 0 <= a < h && 0 <= b < w && (a < i || (a == i && b < j)) ==>
            cells[a, b].x == a + 1 && cells[a, b].y == b + 1 && cells[a, b].serialNumber == serialNumber &&
            cells[a, b].sqrtPower == None && cells[a, b].colPower == None && cells[a, b].rowPower == None
        {
          cells[i, j] := new Power(i + 1, j + 1, serialNumber);
        }
      }
      data := cells;
      this.serialNumber := serialNumber;
    }

    /** `get_cell_powers(x, y)`: `data[x - 1][y - 1]`, an IndexError when
        either index is out of Python's range; inside the grid, the cell of
        coordinates x,y. */
    function GetCellPowers(x: int, y: int): (r: Result<Power>)
      reads data
      ensures r.Ok? <==> -data.Length0 <= x - 1 < data.Length0 && -data.Length1 <= y - 1 < data.Length1
      ensures r.Err? ==> r.error == IndexError
      ensures 1 <= x <= data.Length0 && 1 <= y <= data.Length1 ==> r == Ok(At(x, y))
      ensures Laid() && 1 <= x <= data.Length0 && 1 <= y <= data.Length1 ==>
        r.value.x == x && r.value.y == y && r.value.serialNumber == serialNumber
    {
      if -data.Length0 <= x - 1 < data.Length0 && -data.Length1 <= y - 1 < data.Length1 then
        Ok(data[Wrap(x - 1, data.Length0), Wrap(y - 1, data.Length1)])
      else
        Err(IndexError)
    }

    /** `set_cell_powers(x, y, powers)`: afterwards `get_cell_powers(x, y)`
        gives `powers` and every other slot is as it was. */
    method SetCellPowers(x: int, y: int, powers: Power) returns (r: Result<()>)
      modifies data
      ensures r.Ok? <==> -data.Length0 <= x - 1 < data.Length0 && -data.Length1 <= y - 1 < data.Length1
      ensures r.Err? ==> r.error == IndexError && unchanged(data)
      ensures r.Ok? ==> GetCellPowers(x, y) == Ok(powers)
      ensures r.Ok? ==> forall i, j ::
        (0 <= i < data.Length0 && 0 <= j < data.Length1 &&
         (i, j) != (Wrap(x - 1, data.Length0), Wrap(y - 1, data.Length1))) ==> data[i, j] == old(data[i, j])
      ensures (old(Laid()) && 1 <= x <= data.Length0 && 1 <= y <= data.Length1 &&
               powers.x == x && powers.y == y && powers.serialNumber == serialNumber) ==> Laid()
    {
      if -data.Length0 <= x - 1 < data.Length0 && -data.Length1 <= y - 1 < data.Length1 {
        data[Wrap(x - 1, data.Length0), Wrap(y - 1, data.Length1)] := powers;
        r := Ok(());
      } else {
        r := Err(IndexError);
      }
    }
  }

  // ---------------------------------------------------------------------------
  // The incremental square total and the search
  // ---------------------------------------------------------------------------

  /** A cell whose three caches the step to size `k + 1` may use: each is
      false or holds the size-`k` total. */
  ghost predicate Ready(p: Power, k: nat)
    reads p
  {
    Usable(p.sqrtPower, Square(p.serialNumber, p.x, p.y, k)) &&
    Usable(p.rowPower, Row(p.serialNumber, p.x, p.y, k)) &&
    Usable(p.colPower, Col(p.serialNumber, p.x, p.y, k))
  }

  /** `calculate_square_power(power_grid, x, y, size)`.  Size 1 stores the
      cell's power in all three caches.  A larger size adds the corner cell to
      the size-`size - 1` square, the strip below it and the strip to its
      right, each read from a cache (or computed when the cache is false);
      when those three caches are usable the result is the total of the
      square.  The cell's own row and column caches grow by one cell each
      from `int(cache or 0)`. */
  method CalculateSquarePower(grid: PowerGrid, x: int, y: int, size: nat) returns (p: int)
    requires grid.Laid() && 1 <= size && grid.Covers(x, y, size, size)
    requires size > 1 ==> Usable(grid.At(x, y).sqrtPower, Square(grid.serialNumber, x, y, size - 1))
    requires size > 1 ==> Usable(grid.At(x, y + size - 1).rowPower, Row(grid.serialNumber, x, y + size - 1, size - 1))
    requires size > 1 ==> Usable(grid.At(x + size - 1, y).colPower, Col(grid.serialNumber, x + size - 1, y, size - 1))
    modifies grid.At(x, y), grid.At(x, y + size - 1), grid.At(x + size - 1, y)
    ensures p == Square(grid.serialNumber, x, y, size)
    ensures grid.At(x, y).sqrtPower == Some(p)
    ensures grid.At(x, y).colPower == Some(
      if size == 1 then CalculatePower(grid.serialNumber, x, y)
      else OrZero(old(grid.At(x, y).colPower)) + CalculatePower(grid.serialNumber, x, y + size - 1))
    ensures grid.At(x, y).rowPower == Some(
      if size == 1 then CalculatePower(grid.serialNumber, x, y)
      else OrZero(old(grid.At(x, y).rowPower)) + CalculatePower(grid.serialNumber, x + size - 1, y))
    ensures size > 1 ==>
      grid.At(x, y + size - 1).rowPower == Some(Row(grid.serialNumber, x, y + size - 1, size - 1)) &&
      grid.At(x, y + size - 1).sqrtPower == old(grid.At(x, y + size - 1).sqrtPower) &&
      grid.At(x, y + size - 1).colPower == old(grid.At(x, y + size - 1).colPower)
    ensures size > 1 ==>
      grid.At(x + size - 1, y).colPower == Some(Col(grid.serialNumber, x + size - 1, y, size - 1)) &&
      grid.At(x + size - 1, y).sqrtPower == old(grid.At(x + size - 1, y).sqrtPower) &&
      grid.At(x + size - 1, y).rowPower == old(grid.At(x + size - 1, y).rowPower)
  {
    var powerCell := grid.GetCellPowers(x, y).value;
    if size == 1 {
      powerCell.colPower := Some(powerCell.GetPower());
      powerCell.rowPower := Some(powerCell.GetPower());
      powerCell.sqrtPower := Some(powerCell.GetPower());
      assert Block(grid.serialNumber, x, y, 1, 0) == 0;
      assert Row(grid.serialNumber, x, y, 1) == CalculatePower(grid.serialNumber, x, y);
      assert Square(grid.serialNumber, x, y, 1) == powerCell.sqrtPower.value;
    } else {
      var connerPower := grid.GetCellPowers(x + size - 1, y + size - 1).value.GetPower();
      var sqrtPower := powerCell.GetPreviousSqrtPower(grid, size - 1);
      var colCell := grid.GetCellPowers(x, y + size - 1).value;
      var rowPower := colCell.GetPreviousRowPower(grid, size - 1);
      var rowCell := grid.GetCellPowers(x + size - 1, y).value;
      var colPower := rowCell.GetPreviousColPower(grid, size - 1);
      powerCell.colPower := Some(OrZero(powerCell.colPower) + colCell.GetPower());
      powerCell.rowPower := Some(OrZero(powerCell.rowPower) + rowCell.GetPower());
      powerCell.sqrtPower := Some(colPower + rowPower + sqrtPower + connerPower);
      assert connerPower == CalculatePower(grid.serialNumber, x + size - 1, y + size - 1);
      assert sqrtPower == Square(grid.serialNumber, x, y, size - 1);
      assert rowPower == Row(grid.serialNumber, x, y + size - 1, size - 1);
      assert colPower == Col(grid.serialNumber, x + size - 1, y, size - 1);
      SquareGrows(grid.serialNumber, x, y, size);
      assert Square(grid.serialNumber, x, y, size) == powerCell.sqrtPower.value;
    }
    p := powerCell.sqrtPower.value;
  }

  /** x,y is a top-left corner `find_max_power_square` tries for `size`. */
  predicate Corner(a: int, b: int, size: nat) {
    1 <= a < 302 - size && 1 <= b < 302 - size
  }

  /** a,b is tried before x,y: x is the outer loop, y the inner one. */
  predicate Before(a: int, b: int, x: int, y: int) {
    a < x || (a == x && b < y)
  }

  /** a,b is the corner `find_max_power_square` settles on: no square is
      larger, and every square tried before it is smaller. */
  ghost predicate Largest(serial: int, size: nat, a: int, b: int) {
    Corner(a, b, size) &&
    (forall c, d :: Corner(c, d, size) ==> Square(serial, c, d, size) <= Square(serial, a, b, size)) &&
    (forall c, d :: Corner(c, d, size) && Before(c, d, a, b) ==> Square(serial, c, d, size) < Square(serial, a, b, size))
  }

  /** The state of the search once every corner before x,y is tried. */
  ghost predicate Best(serial: int, size: nat, x: int, y: int, index: Option<(int, int)>, maxPower: int) {
    maxPower >= 0 &&
    (forall a, b :: Corner(a, b, size) && Before(a, b, x, y) ==> Square(serial, a, b, size) <= maxPower) &&
    (index.None? ==> maxPower == 0) &&
    (index.Some? ==>
      Corner(index.value.0, index.value.1, size) && maxPower > 0 &&
      Square(serial, index.value.0, index.value.1, size) == maxPower &&
      forall a, b :: Corner(a, b, size) && Before(a, b, index.value.0, index.value.1) ==>
        Square(serial, a, b, size) < maxPower)
  }

  /** Every cell from x,y on in the scan order is ready for `size`. */
  ghost predicate Pending(grid: PowerGrid, size: nat, x: int, y: int)
    requires 300 <= grid.data.Length0 && 300 <= grid.data.Length1
    reads grid.data, grid.Cells()
  {
    size > 1 ==> forall a, b :: 1 <= a <= 300 && 1 <= b <= 300 && !Before(a, b, x, y) ==> Ready(grid.At(a, b), size - 1)
  }

  /** One corner of the search: the total of its square, with every cell
      after it in the scan order still ready. */
  method Try(grid: PowerGrid, x: int, y: int, size: nat) returns (power: int)
    requires grid.Laid() && 300 <= grid.data.Length0 && 300 <= grid.data.Length1 && 1 <= size
    requires Corner(x, y, size) && Pending(grid, size, x, y)
    modifies grid.Cells()
    ensures power == Square(grid.serialNumber, x, y, size)
    ensures Pending(grid, size, x, y + 1)
  {
    assert grid.At(x, y) == grid.data[x - 1, y - 1];
    assert grid.At(x, y + size - 1) == grid.data[x - 1, y + size - 2];
    assert grid.At(x + size - 1, y) == grid.data[x + size - 2, y - 1];
    power := CalculateSquarePower(grid, x, y, size);
  }

  /** `find_max_power_square(power_grid, size)`: the first corner, x then y,
      of the `size` by `size` square with the largest total, with that total;
      `(None, 0)` when no square totals more than 0.  For sizes above 1 the
      caches of every cell must be usable for size `size - 1`. */
  method FindMaxPowerSquare(grid: PowerGrid, size: nat) returns (index: Option<(int, int)>, maxPower: int)
    requires grid.Laid() && 300 <= grid.data.Length0 && 300 <= grid.data.Length1 && 1 <= size
    requires Pending(grid, size, 1, 1)
    modifies grid.Cells()
    ensures index.None? <==> forall a, b :: Corner(a, b, size) ==> Square(grid.serialNumber, a, b, size) <= 0
    ensures index.None? ==> maxPower == 0
    ensures index.Some? ==>
      Largest(grid.serialNumber, size, index.value.0, index.value.1) &&
      maxPower == Square(grid.serialNumber, index.value.0, index.value.1, size)
  {
    ghost var serial := grid.serialNumber;
    index := None;
    maxPower := 0;
    var x := 1;
    while x < 302 - size
      invariant 1 <= x && (x <= 302 - size || x == 1)
      invariant grid.Laid()
      invariant Best(serial, size, x, 1, index, maxPower)
      invariant Pending(grid, size, x, 1)
    {
      var y := 1;
      while y < 302 - size
        invariant 1 <= y <= 302 - size
        invariant grid.Laid()
        invariant Best(serial, size, x, y, index, maxPower)
        invariant Pending(grid, size, x, y)
      {
        var power := Try(grid, x, y, size);
        if power > maxPower {
          maxPower := power;
          index := Some((x, y));
        }
        y := y + 1;
      }
      x := x + 1;
    }
    assert Best(serial, size, 302 - size, 1, index, maxPower);
  }
}
