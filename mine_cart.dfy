/** Mine Cart Madness (2018/day_13_mine_cart.py): carts ride a character grid of
    track, turn on curves and intersections, and crash when two share a cell.
    `tick` runs until one cart is left and reports the first crash and the
    survivor's position. */
module MineCart {
  import opened Wrappers
  import opened Text

  // ---------------------------------------------------------------------------
  // Headings and the two transition tables

  /** The cart glyphs `^`, `v`, `<`, `>`. */
  datatype Heading = Up | Down | Left | Right

  function Glyph(h: Heading): char {
    match h
    case Up => '^'
    case Down => 'v'
    case Left => '<'
    case Right => '>'
  }

  /** The heading a cart glyph stands for, if the character is one. */
  function HeadingOf(c: char): (r: Option<Heading>)
    ensures r.Some? ==> Glyph(r.value) == c
    ensures r.None? ==> forall h :: Glyph(h) != c
  {
    if c == '^' then Some(Up)
    else if c == 'v' then Some(Down)
    else if c == '<' then Some(Left)
    else if c == '>' then Some(Right)
    else None
  }

  predicate IsVertical(h: Heading) {
    h == Up || h == Down
  }

  /** The keys of `CONNNERS`. */
  predicate IsCorner(track: char) {
    track == '/' || track == '\\'
  }

  /** `CONNNERS[track][heading]`: the heading after a curve. */
  function Corner(track: char, h: Heading): Heading
    requires IsCorner(track)
  {
    if track == '/' then
      match h
      case Up => Right
      case Down => Left
      case Left => Down
      case Right => Up
    else
      match h
      case Up => Left
      case Down => Right
      case Left => Up
      case Right => Down
  }

  /** Every curve turns a heading through 90 degrees, and taking the same curve
      again (in reverse) undoes it. */
  lemma CornerTable(track: char, h: Heading)
    requires IsCorner(track)
    ensures IsVertical(Corner(track, h)) != IsVertical(h)
    ensures Corner(track, Corner(track, h)) == h
  {
  }

  datatype Turn = TurnLeft | Straight | TurnRight

  /** `INTERSECTION_TURNS`: the order in which a cart uses its turns. */
  const IntersectionTurns: seq<Turn> := [TurnLeft, Straight, TurnRight]

  /** `INTERSECTIONS[heading][turn]`. */
  function Intersection(h: Heading, t: Turn): Heading {
    match t
    case Straight => h
    case TurnLeft =>
      (match h case Right => Up case Left => Down case Down => Right case Up => Left)
    case TurnRight =>
      (match h case Right => Down case Left => Up case Down => Left case Up => Right)
  }

  /** Straight keeps the heading, left and right are perpendicular and undo each
      other, and left, straight, right in a row give the heading back. */
  lemma IntersectionTable(h: Heading)
    ensures Intersection(h, Straight) == h
    ensures IsVertical(Intersection(h, TurnLeft)) != IsVertical(h)
    ensures IsVertical(Intersection(h, TurnRight)) != IsVertical(h)
    ensures Intersection(Intersection(h, TurnLeft), TurnRight) == h
    ensures Intersection(Intersection(h, TurnRight), TurnLeft) == h
    ensures Intersection(Intersection(Intersection(h, TurnLeft), Straight), TurnRight) == h
  {
  }

  // ---------------------------------------------------------------------------
  // A cart's value and one move on the grid

  /** The moving parts of a cart: position, heading and intersection counter. */
  datatype CartState = CartState(x: int, y: int, direct: Heading, interNum: nat)

  /** `Cart.next_track` on a cart value. */
  function Advance(s: CartState): (p: (int, int)) {
    match s.direct
    case Left => (s.x - 1, s.y)
    case Right => (s.x + 1, s.y)
    case Down => (s.x, s.y + 1)
    case Up => (s.x, s.y - 1)
  }

  /** `tracks[y][x]` with Python's indexing: negative indices wrap, others beyond
      the end raise IndexError (None). */
  function TrackAt(tracks: seq<seq<char>>, x: int, y: int): Option<char> {
    match PyIndex(tracks, y)
    case None => None
    case Some(row) => PyIndex(row, x)
  }

  /** The heading and counter a cart gets on landing on `track`. */
  function Land(track: char, s: CartState, x: int, y: int): CartState {
    if IsCorner(track) then CartState(x, y, Corner(track, s.direct), s.interNum)
    else if track == '+' then
      CartState(x, y, Intersection(s.direct, IntersectionTurns[s.interNum % 3]), s.interNum + 1)
    else CartState(x, y, s.direct, s.interNum)
  }

  /** `Track.move_cart` on a cart value: None when the lookup raises IndexError. */
  function Step(tracks: seq<seq<char>>, s: CartState): Option<CartState> {
    var (x, y) := Advance(s);
    match TrackAt(tracks, x, y)
    case None => None
    case Some(t) => Some(Land(t, s, x, y))
  }

  /** A move goes exactly one cell in the cart's heading, keeps the heading on
      anything but a curve or intersection, and bumps the intersection counter by
      one exactly when the cart lands on `+`, using the turn selected by the
      counter's old value. */
  lemma StepFacts(tracks: seq<seq<char>>, s: CartState)
    requires Step(tracks, s).Some?
    ensures var s' := Step(tracks, s).value;
      var t := TrackAt(tracks, s'.x, s'.y).value;
      && (s'.x, s'.y) == Advance(s)
      && (s'.x - s.x) * (s'.x - s.x) + (s'.y - s.y) * (s'.y - s.y) == 1
      && (!IsCorner(t) && t != '+' ==> s'.direct == s.direct)
      && (IsCorner(t) ==> s'.direct == Corner(t, s.direct))
      && (s'.interNum == s.interNum + 1 <==> t == '+')
      && (s'.interNum == s.interNum <==> t != '+')
      && (t == '+' ==> s'.direct == Intersection(s.direct, IntersectionTurns[s.interNum % 3]))
  {
  }

  /** The turn a cart takes at its `n`-th intersection (counting from 0). */
  function TurnAt(n: nat): Turn {
    IntersectionTurns[n % 3]
  }

  /** Turns cycle left, straight, right, whatever counter value a cart starts
      from, so three intersections in a row (entered from the same heading chain)
      give the heading back, and six do so twice. */
  lemma {:induction false} IntersectionCycle(h: Heading, n: nat)
    ensures TurnAt(3 * n) == TurnLeft && TurnAt(3 * n + 1) == Straight && TurnAt(3 * n + 2) == TurnRight
    ensures Intersection(Intersection(Intersection(h, TurnAt(n)), TurnAt(n + 1)), TurnAt(n + 2)) == h
  {
    assert (3 * n) % 3 == 0 && (3 * n + 1) % 3 == 1 && (3 * n + 2) % 3 == 2;
    var k := n % 3;
    assert (n + 1) % 3 == (k + 1) % 3 && (n + 2) % 3 == (k + 2) % 3;
  }

  // ---------------------------------------------------------------------------
  // Carts and the track

  class Cart {
    var x: int
    var y: int
    var direct: Heading
    var interNum: nat
    var crash: bool

    constructor (x: int, y: int, direct: Heading)
      ensures this.x == x && this.y == y && this.direct == direct
      ensures interNum == 0 && !crash
    {
      this.x := x;
      this.y := y;
      this.direct := direct;
      this.interNum := 0;
      this.crash := false;
    }

    function State(): CartState
      reads this
    {
      CartState(x, y, direct, interNum)
    }

    /** `next_track`: the neighbouring cell in the cart's heading. */
    function NextTrack(): (p: (int, int))
      reads this
      ensures (p.0 - x) * (p.0 - x) + (p.1 - y) * (p.1 - y) == 1
      ensures direct == Left ==> p.0 < x
      ensures direct == Right ==> p.0 > x
      ensures direct == Down ==> p.1 > y
      ensures direct == Up ==> p.1 < y
    {
      Advance(State())
    }
  }

  class Track {
    const tracks: seq<seq<char>>

    constructor (tracks: seq<seq<char>>)
      ensures this.tracks == tracks
    {
      this.tracks := tracks;
    }

    /** `move_cart`: moves the cart one cell and updates its heading and counter;
        returns false (Python: IndexError, raised before any field is written)
        when the cell lies outside the grid. */
    method MoveCart(cart: Cart) returns (ok: bool)
      modifies cart
      ensures ok <==> Step(tracks, old(cart.State())).Some?
      ensures ok ==> cart.State() == Step(tracks, old(cart.State())).value
      ensures !ok ==> cart.State() == old(cart.State())
      ensures cart.crash == old(cart.crash)
    {
      var (x, y) := cart.NextTrack();
      var found := TrackAt(tracks, x, y);
      if found.None? {
        return false;
      }
      var track := found.value;
      if IsCorner(track) {
        cart.direct := Corner(track, cart.direct);
      } else if track == '+' {
        cart.direct := Intersection(cart.direct, IntersectionTurns[cart.interNum % 3]);
        cart.interNum := cart.interNum + 1;
      }
      cart.x := x;
      cart.y := y;
      return true;
    }
  }

  // ---------------------------------------------------------------------------
  // Collision lookup and ordering

  predicate Distinct<T(==)>(s: seq<T>) {
    forall i, j :: 0 <= i < j < |s| ==> s[i] != s[j]
  }

  /** The test inside `check_crash_cart`: another cart, still running, on the
      same cell. */
  predicate Hits(c: Cart, cart: Cart)
    reads c, cart
  {
    c != cart && !c.crash && c.x == cart.x && c.y == cart.y
  }

  /** `check_crash_cart`: the position in `carts` of the first cart that `cart`
      hits (Python returns that cart object), or None. */
  function CheckCrashCart(carts: seq<Cart>, cart: Cart): (r: Option<nat>)
    reads carts, cart
    ensures r.Some? ==> r.value < |carts| && Hits(carts[r.value], cart)
    ensures r.Some? ==> forall j :: 0 <= j < r.value ==> !Hits(carts[j], cart)
    ensures r.None? ==> forall j :: 0 <= j < |carts| ==> !Hits(carts[j], cart)
    decreases |carts|
  {
    if |carts| == 0 then None
    else if Hits(carts[0], cart) then Some(0)
    else
      var rest := CheckCrashCart(carts[1..], cart);
      if rest.Some? then Some(rest.value + 1) else None
  }

  /** The sort key `(c.y, c.x)` compared lexicographically. */
  predicate KeyLe(a: Cart, b: Cart)
    reads a, b
  {
    a.y < b.y || (a.y == b.y && a.x <= b.x)
  }

  predicate SortedByPosition(s: seq<Cart>)
    reads s
  {
    forall i, j :: 0 <= i < j < |s| ==> KeyLe(s[i], s[j])
  }

  /** A sort key per element, as `sorted(..., key=lambda c: (c.y, c.x))` computes
      it once for each cart before sorting.  Carts and cart values are sorted by
      the same insertion sort. */
  type Keys<!T> = T -> (int, int)

  predicate KeyedLe<T>(key: Keys<T>, a: T, b: T) {
    key(a).0 < key(b).0 || (key(a).0 == key(b).0 && key(a).1 <= key(b).1)
  }

  predicate KeyedSorted<T>(key: Keys<T>, s: seq<T>) {
    forall i, j :: 0 <= i < j < |s| ==> KeyedLe(key, s[i], s[j])
  }

  /** Places `c` after every element whose key is not greater, so that equal
      keys keep their list order as in Python's stable sort. */
  function Insert<T(==)>(key: Keys<T>, c: T, s: seq<T>): (r: seq<T>)
    ensures forall x :: x in r ==> x == c || x in s
    decreases |s|
  {
    if |s| == 0 then [c]
    else if !KeyedLe(key, s[0], c) then [c] + s
    else [s[0]] + Insert(key, c, s[1..])
  }

  lemma {:induction false} InsertPermutes<T>(key: Keys<T>, c: T, s: seq<T>)
    ensures multiset(Insert(key, c, s)) == multiset(s) + multiset{c}
    decreases |s|
  {
    if |s| > 0 && KeyedLe(key, s[0], c) {
      InsertPermutes(key, c, s[1..]);
      assert s == [s[0]] + s[1..];
    }
  }

  lemma {:induction false} InsertSorted<T>(key: Keys<T>, c: T, s: seq<T>)
    requires KeyedSorted(key, s)
    ensures KeyedSorted(key, Insert(key, c, s))
    decreases |s|
  {
    if |s| > 0 && KeyedLe(key, s[0], c) {
      var rest := Insert(key, c, s[1..]);
      InsertSorted(key, c, s[1..]);
      forall d | d in rest ensures KeyedLe(key, s[0], d) {
        if d != c {
          var k :| 0 <= k < |s[1..]| && s[1..][k] == d;
          assert s[k + 1] == d;
        }
      }
      var r := Insert(key, c, s);
      assert r == [s[0]] + rest;
      forall i, j | 0 <= i < j < |r| ensures KeyedLe(key, r[i], r[j]) {
        if i == 0 {
          assert r[j] == rest[j - 1];
          assert r[j] in rest;
        } else {
          assert r[i] == rest[i - 1] && r[j] == rest[j - 1];
        }
      }
    }
  }

  /** Insertion sort by the key. */
  function SortByKey<T(==)>(key: Keys<T>, s: seq<T>): (r: seq<T>)
    ensures multiset(r) == multiset(s)
    ensures KeyedSorted(key, r)
    decreases |s|
  {
    if |s| == 0 then []
    else
      var n := |s| - 1;
      var sorted := SortByKey(key, s[..n]);
      assert s == s[..n] + [s[n]];
      InsertPermutes(key, s[n], sorted);
      InsertSorted(key, s[n], sorted);
      Insert(key, s[n], sorted)
  }

  /** The keys `(c.y, c.x)` of the carts, taken once before sorting. */
  function PositionKeys(carts: seq<Cart>): (key: Keys<Cart>)
    reads carts
    ensures forall d :: d in carts ==> key(d) == (d.y, d.x)
  {
    var m := map c | c in carts :: (c.y, c.x);
    c => if c in m then m[c] else (0, 0)
  }

  /** `sort_carts`: the carts in (y, x) order, as a permutation of the input;
      their values come out as the values sorted by position. */
  function SortCarts(carts: seq<Cart>): (r: seq<Cart>)
    reads carts
    ensures multiset(r) == multiset(carts)
    ensures SortedByPosition(r)
    ensures r == SortByKey(PositionKeys(carts), carts)
  {
    var key := PositionKeys(carts);
    var r := SortByKey(key, carts);
    assert forall x :: x in r ==> x in carts by {
      forall x | x in r ensures x in carts {
        assert x in multiset(r);
      }
    }
    assert forall i :: 0 <= i < |r| ==> key(r[i]) == (r[i].y, r[i].x);
    r
  }

  /** Sorting the carts sorts their values by position. */
  lemma SortCartsStates(carts: seq<Cart>)
    ensures forall c :: c in SortCarts(carts) ==> c in carts
    ensures States(SortCarts(carts)) == SortByKey(PositionKey, States(carts))
  {
    var r := SortCarts(carts);
    forall c | c in r ensures c in carts {
      assert c in multiset(r);
    }
    StatesSort(PositionKeys(carts), carts);
  }

  /** The sort key `(c.y, c.x)` of a cart value. */
  function PositionKey(s: CartState): (int, int) {
    (s.y, s.x)
  }

  /** Inserting a cart keyed by its position does to the carts' values what
      inserting its value by position does. */
  lemma {:induction false} StatesInsert(key: Keys<Cart>, c: Cart, s: seq<Cart>)
    requires key(c) == (c.y, c.x)
    requires forall d :: d in s ==> key(d) == (d.y, d.x)
    ensures States(Insert(key, c, s)) == Insert(PositionKey, c.State(), States(s))
    decreases |s|
  {
    if |s| > 0 {
      assert States(s)[0] == s[0].State();
      if KeyedLe(key, s[0], c) {
        StatesInsert(key, c, s[1..]);
        assert States(s[1..]) == States(s)[1..];
        StatesConcat([s[0]], Insert(key, c, s[1..]));
      } else {
        StatesConcat([c], s);
      }
    }
  }

  /** Sorting carts keyed by their positions sorts their values by position. */
  lemma {:induction false} StatesSort(key: Keys<Cart>, s: seq<Cart>)
    requires forall d :: d in s ==> key(d) == (d.y, d.x)
    ensures States(SortByKey(key, s)) == SortByKey(PositionKey, States(s))
    decreases |s|
  {
    if |s| > 0 {
      var n := |s| - 1;
      var values := States(s);
      var sorted := SortByKey(key, s[..n]);
      assert SortByKey(key, s) == Insert(key, s[n], sorted);
      assert SortByKey(PositionKey, values) == Insert(PositionKey, values[n], SortByKey(PositionKey, values[..n]));
      assert States(s[..n]) == values[..n];
      StatesSort(key, s[..n]);
      forall d | d in sorted ensures key(d) == (d.y, d.x) {
        assert d in multiset(s[..n]);
        assert d in s;
      }
      StatesInsert(key, s[n], sorted);
    }
  }

  // ---------------------------------------------------------------------------
  // Bookkeeping for one tick

  /** The carts whose crash flag is false, in list order. */
  function Keep<T>(cs: seq<T>, crashed: seq<bool>): (r: seq<T>)
    requires |crashed| == |cs|
    ensures |r| <= |cs|
    decreases |cs|
  {
    if |cs| == 0 then []
    else
      var n := |cs| - 1;
      Keep(cs[..n], crashed[..n]) + (if crashed[n] then [] else [cs[n]])
  }

  function CountTrue(s: seq<bool>): (n: nat)
    ensures n <= |s|
    decreases |s|
  {
    if |s| == 0 then 0 else CountTrue(s[..|s| - 1]) + (if s[|s| - 1] then 1 else 0)
  }

  lemma {:induction false} KeepLength<T>(cs: seq<T>, crashed: seq<bool>)
    requires |crashed| == |cs|
    ensures |Keep(cs, crashed)| + CountTrue(crashed) == |cs|
    decreases |cs|
  {
    if |cs| > 0 {
      KeepLength(cs[..|cs| - 1], crashed[..|cs| - 1]);
    }
  }

  lemma {:induction false} KeepMembers<T>(cs: seq<T>, crashed: seq<bool>)
    requires |crashed| == |cs|
    ensures forall c :: c in Keep(cs, crashed) <==> exists k :: 0 <= k < |cs| && cs[k] == c && !crashed[k]
    decreases |cs|
  {
    if |cs| > 0 {
      var n := |cs| - 1;
      KeepMembers(cs[..n], crashed[..n]);
      forall c ensures c in Keep(cs, crashed) <==> exists k :: 0 <= k < |cs| && cs[k] == c && !crashed[k] {
        if c in Keep(cs, crashed) && c !in Keep(cs[..n], crashed[..n]) {
          assert cs[n] == c && !crashed[n];
        }
        if exists k :: 0 <= k < |cs| && cs[k] == c && !crashed[k] {
          var k :| 0 <= k < |cs| && cs[k] == c && !crashed[k];
          if k < n {
            assert cs[..n][k] == c && !crashed[..n][k];
          }
        }
      }
    }
  }

  lemma {:induction false} KeepDistinct<T>(cs: seq<T>, crashed: seq<bool>)
    requires |crashed| == |cs| && Distinct(cs)
    ensures Distinct(Keep(cs, crashed))
    decreases |cs|
  {
    if |cs| > 0 {
      var n := |cs| - 1;
      KeepDistinct(cs[..n], crashed[..n]);
      KeepMembers(cs[..n], crashed[..n]);
      if !crashed[n] {
        assert cs[n] !in Keep(cs[..n], crashed[..n]);
      }
    }
  }

  /** Python's `list.remove`: drop the first occurrence. */
  function Remove(s: seq<Cart>, c: Cart): seq<Cart>
    decreases |s|
  {
    if |s| == 0 then []
    else if s[0] == c then s[1..]
    else [s[0]] + Remove(s[1..], c)
  }

  lemma {:induction false} RemoveLast(s: seq<Cart>, c: Cart, d: Cart)
    requires c in s
    ensures Remove(s + [d], c) == Remove(s, c) + [d]
    decreases |s|
  {
    if s[0] != c {
      assert (s + [d])[1..] == s[1..] + [d];
      RemoveLast(s[1..], c, d);
    } else {
      assert (s + [d])[1..] == s[1..] + [d];
    }
  }

  lemma RemoveAbsent(s: seq<Cart>, c: Cart)
    requires c !in s
    ensures Remove(s, c) == s
    decreases |s|
  {
    if |s| > 0 {
      RemoveAbsent(s[1..], c);
    }
  }

  /** Crashing the not-yet-crashed cart at position `j` of a distinct list
      removes exactly that cart from the survivors. */
  lemma {:induction false} KeepCrash(cs: seq<Cart>, crashed: seq<bool>, j: nat)
    requires |crashed| == |cs| && Distinct(cs)
    requires j < |cs| && !crashed[j]
    ensures Keep(cs, crashed[j := true]) == Remove(Keep(cs, crashed), cs[j])
    decreases |cs|
  {
    var n := |cs| - 1;
    var st := crashed[j := true];
    assert st[..n] == if j < n then crashed[..n][j := true] else crashed[..n];
    assert Keep(cs, st) == Keep(cs[..n], st[..n]) + (if st[n] then [] else [cs[n]]);
    assert Keep(cs, crashed) == Keep(cs[..n], crashed[..n]) + (if crashed[n] then [] else [cs[n]]);
    if j < n {
      assert Distinct(cs[..n]);
      assert cs[..n][j] == cs[j];
      KeepCrash(cs[..n], crashed[..n], j);
      KeepMembers(cs[..n], crashed[..n]);
      assert cs[j] in Keep(cs[..n], crashed[..n]) by {
        assert cs[..n][j] == cs[j];
      }
      assert st[n] == crashed[n];
      if !crashed[n] {
        var k := Keep(cs[..n], crashed[..n]);
        RemoveLast(k, cs[j], cs[n]);
        assert st[n] == crashed[n];
        assert Keep(cs, st) == Remove(k, cs[j]) + [cs[n]];
        assert Keep(cs, crashed) == k + [cs[n]];
      } else {
        var k := Keep(cs[..n], crashed[..n]);
        assert Keep(cs[..n], st[..n]) == Remove(k, cs[j]);
        assert Keep(cs, st) == Remove(k, cs[j]);
        assert Keep(cs, crashed) == k;
      }
    } else {
      KeepMembers(cs[..n], crashed[..n]);
      assert cs[n] !in Keep(cs[..n], crashed[..n]);
      RemoveAbsent(Keep(cs[..n], crashed[..n]), cs[n]);
      RemoveLast0(Keep(cs[..n], crashed[..n]), cs[n]);
    }
  }

  lemma RemoveLast0(s: seq<Cart>, c: Cart)
    requires c !in s
    ensures Remove(s + [c], c) == s
    decreases |s|
  {
    if |s| > 0 {
      assert (s + [c])[1..] == s[1..] + [c];
      RemoveLast0(s[1..], c);
    }
  }

  lemma {:induction false} CountTrueSet(s: seq<bool>, k: nat)
    requires k < |s| && !s[k]
    ensures CountTrue(s[k := true]) == CountTrue(s) + 1
    decreases |s|
  {
    var n := |s| - 1;
    assert s[k := true][..n] == if k < n then s[..n][k := true] else s[..n];
    if k < n {
      CountTrueSet(s[..n], k);
    }
  }

  lemma {:induction false} KeepPrefix<T>(cs: seq<T>, crashed: seq<bool>, i: nat)
    requires |crashed| == |cs| && i < |cs|
    ensures Keep(cs[..i + 1], crashed[..i + 1])
         == Keep(cs[..i], crashed[..i]) + (if crashed[i] then [] else [cs[i]])
  {
    assert cs[..i + 1][..i] == cs[..i];
    assert crashed[..i + 1][..i] == crashed[..i];
  }

  // ---------------------------------------------------------------------------
  // One tick and the whole run

  /** What one pass over the carts produces. */
  // ---------------------------------------------------------------------------
  // One pass over the carts, on values

  /** The state of a pass over the cart list: every cart's value and crash
      flag, the first crash seen so far and the number of collisions. */
  datatype Pass = Pass(now: seq<CartState>, crashed: seq<bool>, firstCrash: Option<(int, int)>, collisions: nat)

  /** The test of `check_crash_cart` on values: the cart at `k` is another cart,
      still running, on the cell of the cart at `i`. */
  predicate HitAt(now: seq<CartState>, crashed: seq<bool>, i: nat, k: nat)
    requires |crashed| == |now| && i < |now| && k < |now|
  {
    k != i && !crashed[k] && now[k].x == now[i].x && now[k].y == now[i].y
  }

  /** The first position at or after `k` that the cart at `i` hits. */
  function FirstHit(now: seq<CartState>, crashed: seq<bool>, i: nat, k: nat): (r: Option<nat>)
    requires |crashed| == |now| && i < |now| && k <= |now|
    ensures r.Some? ==> k <= r.value < |now| && HitAt(now, crashed, i, r.value)
    ensures r.Some? ==> forall m :: k <= m < r.value ==> !HitAt(now, crashed, i, m)
    ensures r.None? ==> forall m :: k <= m < |now| ==> !HitAt(now, crashed, i, m)
    decreases |now| - k
  {
    if k == |now| then None
    else if HitAt(now, crashed, i, k) then Some(k)
    else FirstHit(now, crashed, i, k + 1)
  }

  /** One iteration of `for cart in carts` on values, for the cart at `i`:
      a crashed cart is skipped; otherwise it moves (None on IndexError) and, if
      it lands on a running cart, both crash and the first crash is recorded. */
  function Visit(tracks: seq<seq<char>>, p: Pass, i: nat): (r: Option<Pass>)
    requires |p.crashed| == |p.now| && i < |p.now|
    ensures r.Some? ==> |r.value.now| == |p.now| && |r.value.crashed| == |p.now|
  {
    if p.crashed[i] then Some(p)
    else
      match Step(tracks, p.now[i])
      case None => None
      case Some(s) =>
        var now := p.now[i := s];
        match FirstHit(now, p.crashed, i, 0)
        case None => Some(p.(now := now))
        case Some(j) =>
          Some(Pass(now, p.crashed[j := true][i := true],
                    if p.firstCrash.None? then Some((now[j].x, now[j].y)) else p.firstCrash,
                    p.collisions + 1))
  }

  /** The pass after visiting the first `i` carts. */
  function PassUpTo(tracks: seq<seq<char>>, start: Pass, i: nat): (r: Option<Pass>)
    requires |start.crashed| == |start.now| && i <= |start.now|
    ensures r.Some? ==> |r.value.now| == |start.now| && |r.value.crashed| == |start.now|
  {
    if i == 0 then Some(start)
    else
      match PassUpTo(tracks, start, i - 1)
      case None => None
      case Some(p) => Visit(tracks, p, i - 1)
  }

  function StartPass(states: seq<CartState>, firstCrash: Option<(int, int)>): Pass {
    Pass(states, seq(|states|, _ => false), firstCrash, 0)
  }

  /** A whole pass, from the carts' values at the start of the tick. */
  function RunPass(tracks: seq<seq<char>>, states: seq<CartState>, firstCrash: Option<(int, int)>): Option<Pass> {
    PassUpTo(tracks, StartPass(states, firstCrash), |states|)
  }

  /** Once a move has failed the pass stays failed. */
  lemma {:induction false} PassStuck(tracks: seq<seq<char>>, start: Pass, i: nat, m: nat)
    requires |start.crashed| == |start.now| && i <= m <= |start.now|
    requires PassUpTo(tracks, start, i).None?
    ensures PassUpTo(tracks, start, m).None?
    decreases m - i
  {
    if i < m {
      PassStuck(tracks, start, i, m - 1);
    }
  }

  /** A visit moves at most the visited cart, and only if it was running, by
      one `Step`; crash flags are never cleared. */
  lemma VisitMoves(tracks: seq<seq<char>>, q: Pass, i: nat)
    requires |q.crashed| == |q.now| && i < |q.now|
    requires Visit(tracks, q, i).Some?
    ensures var p := Visit(tracks, q, i).value;
      && (forall k :: 0 <= k < |q.now| && k != i ==> p.now[k] == q.now[k])
      && (forall k :: 0 <= k < |q.now| && q.crashed[k] ==> p.crashed[k])
      && (q.crashed[i] ==> p == q)
      && (!q.crashed[i] ==> Step(tracks, q.now[i]) == Some(p.now[i]))
  {
  }

  /** A visit adds two crash flags per collision (at most one), keeps a first
      crash already recorded, records one when it collides, and what it records
      is the cell of a crashed cart. */
  lemma VisitCrashes(tracks: seq<seq<char>>, q: Pass, i: nat)
    requires |q.crashed| == |q.now| && i < |q.now|
    requires Visit(tracks, q, i).Some?
    ensures var p := Visit(tracks, q, i).value;
      && (p.collisions == q.collisions || p.collisions == q.collisions + 1)
      && CountTrue(p.crashed) + 2 * q.collisions == CountTrue(q.crashed) + 2 * p.collisions
      && (q.firstCrash.Some? ==> p.firstCrash == q.firstCrash)
      && (p.collisions == q.collisions ==> p.firstCrash == q.firstCrash)
      && (p.collisions > q.collisions ==> p.firstCrash.Some?)
      && (p.firstCrash != q.firstCrash ==>
            exists w :: 0 <= w < |q.now| && p.crashed[w] && (p.now[w].x, p.now[w].y) == p.firstCrash.value)
  {
    if !q.crashed[i] {
      var s := Step(tracks, q.now[i]).value;
      var hit := FirstHit(q.now[i := s], q.crashed, i, 0);
      if hit.Some? {
        var j := hit.value;
        CountTrueSet(q.crashed, j);
        CountTrueSet(q.crashed[j := true], i);
        var p := Visit(tracks, q, i).value;
        assert p.crashed[j];
      }
    }
  }

  /** Carts not yet visited have not moved, every visited cart still running
      moved exactly once, and every cart has either not moved or moved once. */
  lemma {:induction false} PassMoves(tracks: seq<seq<char>>, states: seq<CartState>,
                                     fc0: Option<(int, int)>, i: nat)
    requires i <= |states|
    requires PassUpTo(tracks, StartPass(states, fc0), i).Some?
    ensures var p := PassUpTo(tracks, StartPass(states, fc0), i).value;
      && (forall k :: i <= k < |states| ==> p.now[k] == states[k])
      && (forall k :: 0 <= k < i ==> !p.crashed[k] ==> Step(tracks, states[k]) == Some(p.now[k]))
      && (forall k :: 0 <= k < |states| ==>
            p.now[k] == states[k] || Step(tracks, states[k]) == Some(p.now[k]))
  {
    if i > 0 {
      var start := StartPass(states, fc0);
      PassMoves(tracks, states, fc0, i - 1);
      var q := PassUpTo(tracks, start, i - 1).value;
      VisitMoves(tracks, q, i - 1);
    }
  }

  /** Two crash flags per collision, and the first crash is never replaced, is
      set as soon as there is a collision, and is the cell of a crashed cart. */
  lemma {:induction false} PassCrashes(tracks: seq<seq<char>>, states: seq<CartState>,
                                       fc0: Option<(int, int)>, i: nat)
    requires i <= |states|
    requires PassUpTo(tracks, StartPass(states, fc0), i).Some?
    ensures var p := PassUpTo(tracks, StartPass(states, fc0), i).value;
      && CountTrue(p.crashed) == 2 * p.collisions
      && (fc0.Some? ==> p.firstCrash == fc0)
      && (p.collisions == 0 ==> p.firstCrash == fc0)
      && (p.collisions > 0 ==> p.firstCrash.Some?)
      && (p.firstCrash != fc0 ==>
            exists w :: 0 <= w < |states| && p.crashed[w] && (p.now[w].x, p.now[w].y) == p.firstCrash.value)
  {
    var start := StartPass(states, fc0);
    if i == 0 {
      AllFalseCount(|states|);
    } else {
      PassCrashes(tracks, states, fc0, i - 1);
      var q := PassUpTo(tracks, start, i - 1).value;
      var p := PassUpTo(tracks, start, i).value;
      VisitMoves(tracks, q, i - 1);
      VisitCrashes(tracks, q, i - 1);
      if p.firstCrash != fc0 && p.firstCrash == q.firstCrash {
        var w :| 0 <= w < |states| && q.crashed[w] && (q.now[w].x, q.now[w].y) == q.firstCrash.value;
        assert p.crashed[w] && p.now[w] == q.now[w];
      }
    }
  }

  // ---------------------------------------------------------------------------
  // The whole run, on values

  /** `tick` on the carts' values: run a pass, keep the carts still running, and
      stop with the first crash and the survivor's cell once exactly one is left;
      otherwise sort the survivors by `(y, x)` and run another pass.  A failed
      move is IndexError; `fuel` bounds the number of passes (OutOfFuel). */
  function Run(tracks: seq<seq<char>>, states: seq<CartState>, firstCrash: Option<(int, int)>, fuel: nat)
    : (r: Result<(Option<(int, int)>, (int, int))>)
    ensures r.Err? ==> r.error == IndexError || r.error == OutOfFuel
    decreases fuel
  {
    if fuel == 0 then Err(OutOfFuel)
    else
      match RunPass(tracks, states, firstCrash)
      case None => Err(IndexError)
      case Some(p) =>
        var safe := Keep(p.now, p.crashed);
        if |safe| == 1 then Ok((p.firstCrash, (safe[0].x, safe[0].y)))
        else Run(tracks, NextStates(p), p.firstCrash, fuel - 1)
  }

  /** The carts still running after a pass, sorted for the next one. */
  function NextStates(p: Pass): (r: seq<CartState>)
    requires |p.crashed| == |p.now|
    ensures |r| == |Keep(p.now, p.crashed)|
  {
    var safe := Keep(p.now, p.crashed);
    var r := SortByKey(PositionKey, safe);
    assert |r| == |multiset(r)| == |safe|;
    r
  }

  /** One unfolding of `Run` for a pass that succeeds. */
  lemma RunStep(tracks: seq<seq<char>>, states: seq<CartState>, firstCrash: Option<(int, int)>,
                fuel: nat, rest: nat, p: Pass)
    requires fuel == rest + 1 && RunPass(tracks, states, firstCrash) == Some(p)
    ensures |p.crashed| == |p.now|
    ensures var safe := Keep(p.now, p.crashed);
      Run(tracks, states, firstCrash, fuel)
        == if |safe| == 1 then Ok((p.firstCrash, (safe[0].x, safe[0].y)))
           else Run(tracks, NextStates(p), p.firstCrash, rest)
  {
  }

  /** A first crash once recorded is the one reported: no later collision
      overwrites it. */
  lemma {:induction false} RunKeepsFirstCrash(tracks: seq<seq<char>>, states: seq<CartState>,
                                              crash: (int, int), fuel: nat)
    requires Run(tracks, states, Some(crash), fuel).Ok?
    ensures Run(tracks, states, Some(crash), fuel).value.0 == Some(crash)
    decreases fuel
  {
    PassCrashes(tracks, states, Some(crash), |states|);
    var p := RunPass(tracks, states, Some(crash)).value;
    var rest := fuel - 1;
    RunStep(tracks, states, Some(crash), fuel, rest, p);
    if |Keep(p.now, p.crashed)| != 1 {
      RunKeepsFirstCrash(tracks, NextStates(p), crash, rest);
    }
  }

  /** The reported first crash is the one the first pass with a collision
      records: a pass that collides decides it, and a pass without collision
      that leaves several carts hands the question on to the next pass. */
  lemma RunFirstCrash(tracks: seq<seq<char>>, states: seq<CartState>, fuel: nat)
    requires Run(tracks, states, None, fuel).Ok?
    ensures var p := RunPass(tracks, states, None).value;
      && (p.collisions > 0 ==> p.firstCrash.Some? && Run(tracks, states, None, fuel).value.0 == p.firstCrash)
      && (p.collisions == 0 && |Keep(p.now, p.crashed)| != 1 ==>
            Run(tracks, states, None, fuel) == Run(tracks, NextStates(p), None, fuel - 1))
  {
    PassCrashes(tracks, states, None, |states|);
    var p := RunPass(tracks, states, None).value;
    var rest := fuel - 1;
    RunStep(tracks, states, None, fuel, rest, p);
    if p.collisions > 0 && |Keep(p.now, p.crashed)| != 1 {
      RunKeepsFirstCrash(tracks, NextStates(p), p.firstCrash.value, rest);
    }
  }

  /** Each collision takes two carts out, so a run that ends with one survivor
      started from an odd number of carts, and it reports a first crash exactly
      when one was already recorded or there was more than one cart. */
  lemma {:induction false} RunParity(tracks: seq<seq<char>>, states: seq<CartState>,
                                     firstCrash: Option<(int, int)>, fuel: nat)
    requires Run(tracks, states, firstCrash, fuel).Ok?
    ensures |states| % 2 == 1
    ensures Run(tracks, states, firstCrash, fuel).value.0.Some? <==> firstCrash.Some? || |states| > 1
    decreases fuel
  {
    PassCrashes(tracks, states, firstCrash, |states|);
    var p := RunPass(tracks, states, firstCrash).value;
    var rest := fuel - 1;
    RunStep(tracks, states, firstCrash, fuel, rest, p);
    KeepLength(p.now, p.crashed);
    var survivors := |Keep(p.now, p.crashed)|;
    assert |states| == survivors + 2 * p.collisions;
    if survivors != 1 {
      RunParity(tracks, NextStates(p), p.firstCrash, rest);
    }
    OddPlusEven(survivors, p.collisions, |states|);
  }

  lemma OddPlusEven(a: nat, c: nat, n: nat)
    requires a % 2 == 1 && n == a + 2 * c
    ensures n % 2 == 1
  {
  }

  /** More fuel does not change a run that finished. */
  lemma {:induction false} RunFuel(tracks: seq<seq<char>>, states: seq<CartState>,
                                   firstCrash: Option<(int, int)>, fuel: nat, more: nat)
    requires Run(tracks, states, firstCrash, fuel).Ok? && fuel <= more
    ensures Run(tracks, states, firstCrash, more) == Run(tracks, states, firstCrash, fuel)
    decreases fuel
  {
    var p := RunPass(tracks, states, firstCrash).value;
    var rest, restMore := fuel - 1, more - 1;
    RunStep(tracks, states, firstCrash, fuel, rest, p);
    RunStep(tracks, states, firstCrash, more, restMore, p);
    if |Keep(p.now, p.crashed)| != 1 {
      RunFuel(tracks, NextStates(p), p.firstCrash, rest, restMore);
    }
  }

  // ---------------------------------------------------------------------------
  // One tick and the whole run, on the carts themselves

  /** The carts' fields agree with a pass on values. */
  ghost predicate Mirrors(carts: seq<Cart>, p: Pass)
    reads carts
  {
    && |p.now| == |carts| && |p.crashed| == |carts|
    && forall k :: 0 <= k < |carts| ==> carts[k].State() == p.now[k] && carts[k].crash == p.crashed[k]
  }

  /** The cart values of a list of carts. */
  function States(carts: seq<Cart>): (r: seq<CartState>)
    reads carts
    ensures |r| == |carts| && forall k :: 0 <= k < |carts| ==> r[k] == carts[k].State()
  {
    seq(|carts|, k requires 0 <= k < |carts| reads carts => carts[k].State())
  }

  /** `check_crash_cart` on the carts finds what `FirstHit` finds on their values. */
  lemma CrashLookup(carts: seq<Cart>, now: seq<CartState>, crashed: seq<bool>, i: nat)
    requires Distinct(carts) && |now| == |carts| && |crashed| == |carts| && i < |carts|
    requires forall k :: 0 <= k < |carts| ==> carts[k].State() == now[k] && carts[k].crash == crashed[k]
    ensures CheckCrashCart(carts, carts[i]) == FirstHit(now, crashed, i, 0)
  {
    assert forall k :: 0 <= k < |carts| ==> (Hits(carts[k], carts[i]) <==> HitAt(now, crashed, i, k));
  }

  /** `cart.crash = True` and `cc.crash = True`. */
  method MarkCrashed(a: Cart, b: Cart)
    modifies a, b
    ensures a.crash && b.crash
    ensures a.State() == old(a.State()) && b.State() == old(b.State())
  {
    a.crash := true;
    b.crash := true;
  }

  /** How one collision between the running carts at positions `i` (the mover)
      and `j` changes the survivor list of the first `i + 1` carts and the
      crash count: the other cart leaves the list if it is in it. */
  lemma CrashBookkeeping(carts: seq<Cart>, crashed: seq<bool>, i: nat, j: nat)
    requires |crashed| == |carts| && Distinct(carts)
    requires i < |carts| && j < |carts| && i != j && !crashed[i] && !crashed[j]
    ensures var st := crashed[j := true][i := true];
      Keep(carts[..i + 1], st[..i + 1]) == Remove(Keep(carts[..i], crashed[..i]), carts[j])
  {
    var st := crashed[j := true][i := true];
    KeepPrefix(carts, st, i);
    if j < i {
      assert st[..i] == crashed[..i][j := true];
      assert Distinct(carts[..i]);
      KeepCrash(carts[..i], crashed[..i], j);
    } else {
      assert st[..i] == crashed[..i];
      KeepMembers(carts[..i], crashed[..i]);
      assert forall k :: 0 <= k < i ==> carts[..i][k] == carts[k] && carts[k] != carts[j];
      RemoveAbsent(Keep(carts[..i], crashed[..i]), carts[j]);
    }
  }

  /** The collision branch of `tick`'s inner loop: the cart at `i` has just
      moved onto the running cart at `j`.  Records the first crash, crashes both
      carts and drops the other cart from `safe` if it is there. */
  method Collide(carts: seq<Cart>, ghost p: Pass, i: nat, j: nat,
                 safe: seq<Cart>, fc: Option<(int, int)>, collisions: nat)
    returns (safe': seq<Cart>, fc': Option<(int, int)>, collisions': nat, ghost p': Pass)
    requires i < |carts| && j < |carts| && Distinct(carts) && Mirrors(carts, p)
    requires HitAt(p.now, p.crashed, i, j) && !p.crashed[i]
    requires safe == Keep(carts[..i], p.crashed[..i])
    requires fc == p.firstCrash && collisions == p.collisions
    modifies carts[i], carts[j]
    ensures p' == Pass(p.now, p.crashed[j := true][i := true],
                       if p.firstCrash.None? then Some((p.now[j].x, p.now[j].y)) else p.firstCrash,
                       p.collisions + 1)
    ensures Mirrors(carts, p')
    ensures safe' == Keep(carts[..i + 1], p'.crashed[..i + 1])
    ensures fc' == p'.firstCrash && collisions' == p'.collisions
  {
    var cart := carts[i];
    var other := carts[j];
    fc' := fc;
    if fc.None? {
      fc' := Some((other.x, other.y));
    }
    MarkCrashed(other, cart);
    CrashBookkeeping(carts, p.crashed, i, j);
    if other in safe {
      safe' := Remove(safe, other);
    } else {
      RemoveAbsent(safe, other);
      safe' := safe;
    }
    collisions' := collisions + 1;
    p' := Pass(p.now, p.crashed[j := true][i := true], fc', collisions');
  }

  /** One iteration of the `for cart in carts` loop of `tick` for the cart at
      position `i`, proved to do what `Visit` does on values. */
  method MoveOne(track: Track, carts: seq<Cart>, ghost p: Pass, i: nat,
                 safe: seq<Cart>, fc: Option<(int, int)>, collisions: nat)
    returns (ok: bool, safe': seq<Cart>, fc': Option<(int, int)>, collisions': nat, ghost p': Pass)
    requires i < |carts| && Distinct(carts) && Mirrors(carts, p)
    requires safe == Keep(carts[..i], p.crashed[..i])
    requires fc == p.firstCrash && collisions == p.collisions
    modifies set c | c in carts
    ensures ok <==> Visit(track.tracks, p, i).Some?
    ensures ok ==> p' == Visit(track.tracks, p, i).value && Mirrors(carts, p')
    ensures ok ==> safe' == Keep(carts[..i + 1], p'.crashed[..i + 1])
    ensures ok ==> fc' == p'.firstCrash && collisions' == p'.collisions
  {
    KeepPrefix(carts, p.crashed, i);
    var cart := carts[i];
    if cart.crash {
      return true, safe, fc, collisions, p;
    }
    ok := track.MoveCart(cart);
    if !ok {
      return false, safe, fc, collisions, p;
    }
    ghost var moved := p.(now := p.now[i := cart.State()]);
    assert Mirrors(carts, moved);
    CrashLookup(carts, moved.now, p.crashed, i);
    var cc := CheckCrashCart(carts, cart);
    if cc.Some? {
      safe', fc', collisions', p' := Collide(carts, moved, i, cc.value, safe, fc, collisions);
    } else {
      safe' := safe + [cart];
      fc' := fc;
      collisions' := collisions;
      p' := moved;
    }
  }

  /** What one pass produces. */
  datatype TickOutcome = TickOutcome(safe: seq<Cart>, firstCrash: Option<(int, int)>, collisions: nat)

  /** The body of `tick`'s `while True` loop: move each cart that is still running,
      in list order, and resolve a collision right after each move.  It fails
      (IndexError) exactly when `RunPass` does; otherwise the carts end up as
      `RunPass` says and `safe` lists the carts still running, in list order. */
  method TickOnce(track: Track, carts: seq<Cart>, firstCrash: Option<(int, int)>)
    returns (r: Result<TickOutcome>)
    requires Distinct(carts)
    requires forall c :: c in carts ==> !c.crash
    modifies set c | c in carts
    ensures var pass := RunPass(track.tracks, old(States(carts)), firstCrash);
      && (r.Ok? <==> pass.Some?)
      && (r.Err? ==> r.error == IndexError)
      && (r.Ok? ==> Mirrors(carts, pass.value))
      && (r.Ok? ==> r.value == TickOutcome(Keep(carts, pass.value.crashed), pass.value.firstCrash, pass.value.collisions))
  {
    ghost var start := StartPass(States(carts), firstCrash);
    ghost var p := start;
    var safe: seq<Cart> := [];
    var fc := firstCrash;
    var collisions: nat := 0;
    var i := 0;
    while i < |carts|
      invariant 0 <= i <= |carts|
      invariant start == StartPass(old(States(carts)), firstCrash)
      invariant PassUpTo(track.tracks, start, i) == Some(p)
      invariant Mirrors(carts, p)
      invariant safe == Keep(carts[..i], p.crashed[..i])
      invariant fc == p.firstCrash && collisions == p.collisions
    {
      var ok;
      ok, safe, fc, collisions, p := MoveOne(track, carts, p, i, safe, fc, collisions);
      if !ok {
        PassStuck(track.tracks, start, i + 1, |carts|);
        return Err(IndexError);
      }
      i := i + 1;
    }
    assert carts[..i] == carts && p.crashed[..i] == p.crashed;
    return Ok(TickOutcome(safe, fc, collisions));
  }

  /** What a successful pass means for the carts: the survivors are exactly the
      running carts, without repeats, two carts crashed per collision, running
      carts moved exactly once, and a newly recorded first crash is the cell of a
      crashed cart. */
  lemma PassOutcome(tracks: seq<seq<char>>, carts: seq<Cart>, init: seq<CartState>,
                    fc0: Option<(int, int)>, p: Pass)
    requires Distinct(carts) && |init| == |carts|
    requires RunPass(tracks, init, fc0) == Some(p)
    requires Mirrors(carts, p)
    ensures |Keep(carts, p.crashed)| + 2 * p.collisions == |carts|
    ensures Distinct(Keep(carts, p.crashed))
    ensures forall c :: c in Keep(carts, p.crashed) <==> c in carts && !c.crash
    ensures forall k :: 0 <= k < |carts| ==> !carts[k].crash ==> Step(tracks, init[k]) == Some(carts[k].State())
    ensures fc0.Some? ==> p.firstCrash == fc0
    ensures p.firstCrash.Some? <==> fc0.Some? || p.collisions > 0
    ensures p.firstCrash != fc0 ==> exists c :: c in carts && c.crash && (c.x, c.y) == p.firstCrash.value
  {
    PassMoves(tracks, init, fc0, |init|);
    PassCrashes(tracks, init, fc0, |init|);
    KeepLength(carts, p.crashed);
    KeepDistinct(carts, p.crashed);
    KeepMembers(carts, p.crashed);
    if p.firstCrash != fc0 {
      var w :| 0 <= w < |init| && p.crashed[w] && (p.now[w].x, p.now[w].y) == p.firstCrash.value;
      assert carts[w] in carts;
    }
  }

  lemma {:induction false} AllFalseCount(n: nat)
    ensures CountTrue(seq(n, _ => false)) == 0
  {
    if n > 0 {
      assert seq(n, _ => false)[..n - 1] == seq(n - 1, _ => false);
      AllFalseCount(n - 1);
    }
  }

  lemma {:induction false} DistinctCount<T>(s: seq<T>, x: T)
    requires Distinct(s)
    ensures multiset(s)[x] <= 1
    decreases |s|
  {
    if |s| > 0 {
      var n := |s| - 1;
      assert s == s[..n] + [s[n]];
      DistinctCount(s[..n], x);
      if s[n] == x {
        assert x !in s[..n];
      }
    }
  }

  /** A permutation of a list without repeats has no repeats. */
  lemma PermutationDistinct<T>(s: seq<T>, r: seq<T>)
    requires Distinct(s) && multiset(r) == multiset(s)
    ensures Distinct(r)
  {
    forall i, j | 0 <= i < j < |r| ensures r[i] != r[j] {
      if r[i] == r[j] {
        var x := r[i];
        assert r == r[..i] + [x] + r[i + 1..j] + [x] + r[j + 1..];
        assert multiset(r)[x] >= 2;
        DistinctCount(s, x);
      }
    }
  }

  /** What `tick`'s outer loop keeps between passes: `current` holds, without
      repeats, exactly the carts that have not crashed; each collision so far
      took two carts out; and a first crash is recorded exactly when there has
      been a collision, at the cell of the crashed cart at `crashIdx`. */
  ghost predicate Survivors(carts: seq<Cart>, current: seq<Cart>, total: nat,
                            firstCrash: Option<(int, int)>, crashIdx: nat)
    reads carts
  {
    && Distinct(current)
    && (forall k :: 0 <= k < |current| ==> current[k] in carts && !current[k].crash)
    && (forall k :: 0 <= k < |carts| ==> !carts[k].crash ==> carts[k] in current)
    && |current| + 2 * total == |carts|
    && (firstCrash.Some? <==> total > 0)
    && (firstCrash.Some? ==>
          crashIdx < |carts| && carts[crashIdx].crash && (carts[crashIdx].x, carts[crashIdx].y) == firstCrash.value)
  }

  /** Sorting the survivors keeps them the survivors. */
  lemma SurvivorsPermute(carts: seq<Cart>, a: seq<Cart>, b: seq<Cart>, total: nat,
                         firstCrash: Option<(int, int)>, crashIdx: nat)
    requires Survivors(carts, a, total, firstCrash, crashIdx)
    requires multiset(b) == multiset(a)
    ensures Survivors(carts, b, total, firstCrash, crashIdx)
  {
    PermutationDistinct(a, b);
    assert |b| == |multiset(b)| == |a|;
    forall k | 0 <= k < |b| ensures b[k] in a {
      assert b[k] in multiset(b);
    }
    forall k | 0 <= k < |carts| && !carts[k].crash ensures carts[k] in b {
      assert carts[k] in multiset(a);
    }
  }

  /** When one survivor is left: the starting number of carts is odd, a first
      crash exists exactly when there was more than one cart and lies on a
      crashed cart, and the survivor is the only cart that never crashed. */
  lemma LastSurvivor(carts: seq<Cart>, safe: seq<Cart>, total: nat,
                     firstCrash: Option<(int, int)>, crashIdx: nat)
    requires Survivors(carts, safe, total, firstCrash, crashIdx) && |safe| == 1
    ensures |carts| % 2 == 1
    ensures firstCrash.Some? <==> |carts| > 1
    ensures firstCrash.Some? ==> exists c :: c in carts && c.crash && (c.x, c.y) == firstCrash.value
    ensures safe[0] in carts && !safe[0].crash
    ensures forall c, d :: c in carts && d in carts && !c.crash && !d.crash ==> c == d
  {
    assert safe[0] in safe;
    if firstCrash.Some? {
      assert carts[crashIdx] in carts;
    }
    forall c, d | c in carts && d in carts && !c.crash && !d.crash ensures c == d {
      assert c in safe && d in safe;
    }
  }

  /** One pass of `tick` from the outer loop's point of view: it keeps the
      survivor invariant, with `safe` as the new survivors; a lone cart that
      starts the run is simply moved one step. */
  method Round(track: Track, carts: seq<Cart>, current: seq<Cart>, firstCrash: Option<(int, int)>,
               ghost total: nat, ghost crashIdx: nat)
    returns (r: Result<TickOutcome>, ghost total': nat, ghost crashIdx': nat)
    requires Survivors(carts, current, total, firstCrash, crashIdx)
    modifies set c | c in carts
    ensures var pass := RunPass(track.tracks, old(States(current)), firstCrash);
      && (r.Ok? <==> pass.Some?)
      && (r.Err? ==> r.error == IndexError)
      && (r.Ok? ==> r.value.firstCrash == pass.value.firstCrash)
      && (r.Ok? ==> States(r.value.safe) == Keep(pass.value.now, pass.value.crashed))
    ensures r.Ok? && firstCrash.Some? ==> r.value.firstCrash == firstCrash
    ensures r.Ok? ==> Survivors(carts, r.value.safe, total', r.value.firstCrash, crashIdx')
    ensures r.Ok? && current == carts && |carts| == 1 ==>
      Step(track.tracks, old(carts[0].State())) == Some(carts[0].State())
  {
    ghost var before := States(current);
    ghost var wasCrashed := seq(|carts|, k requires 0 <= k < |carts| reads carts => carts[k].crash);
    r := TickOnce(track, current, firstCrash);
    total', crashIdx' := total, crashIdx;
    if r.Err? {
      return;
    }
    var o := r.value;
    ghost var p := RunPass(track.tracks, before, firstCrash).value;
    PassOutcome(track.tracks, current, before, firstCrash, p);
    assert States(current) == p.now;
    StatesKeep(current, p.crashed);
    total' := total + o.collisions;
    if o.firstCrash != firstCrash {
      ghost var c :| c in current && c.crash && (c.x, c.y) == o.firstCrash.value;
      crashIdx' :| 0 <= crashIdx' < |carts| && carts[crashIdx'] == c;
    }
    assert forall k :: 0 <= k < |carts| && !carts[k].crash ==> carts[k] in o.safe;
    forall k | 0 <= k < |o.safe| ensures o.safe[k] in carts && !o.safe[k].crash {
      assert o.safe[k] in o.safe;
    }
    if o.firstCrash.Some? && o.firstCrash == firstCrash {
      assert wasCrashed[crashIdx];
      assert carts[crashIdx] !in current;
    }
    if current == carts && |carts| == 1 {
      assert carts[0] in o.safe;
    }
  }

  /** `tick`: repeat passes (sorting the survivors by (y, x) between passes)
      until exactly one cart is left, then report the first crash and the last
      cart's position.  At least one pass always runs.  `fuel` bounds the number
      of passes: the Python loop has no bound and spins forever when no cart, or
      more than one, keeps running.  On success the starting number of carts is
      odd (each crash removes two), a first crash is reported exactly when there
      was more than one cart, it is the cell of a crashed cart, and the
      reported survivor is the only cart that never crashed.  The result is
      exactly what `Run` computes from the carts' starting values. */
  method Tick(track: Track, carts: seq<Cart>, fuel: nat)
    returns (r: Result<(Option<(int, int)>, (int, int))>)
    requires Distinct(carts)
    requires forall c :: c in carts ==> !c.crash
    modifies set c | c in carts
    ensures r == Run(track.tracks, old(States(carts)), None, fuel)
    ensures r.Err? ==> r.error == IndexError || r.error == OutOfFuel
    ensures r.Ok? ==> |carts| % 2 == 1
    ensures r.Ok? ==> (r.value.0.Some? <==> |carts| > 1)
    ensures r.Ok? && r.value.0.Some? ==>
      exists c :: c in carts && c.crash && (c.x, c.y) == r.value.0.value
    ensures r.Ok? ==> exists c :: c in carts && !c.crash && (c.x, c.y) == r.value.1
    ensures r.Ok? ==> forall c, d :: c in carts && d in carts && !c.crash && !d.crash ==> c == d
    ensures r.Ok? && |carts| == 1 ==>
      Step(track.tracks, old(carts[0].State())) == Some(carts[0].State())
  {
    var current := carts;
    var firstCrash: Option<(int, int)> := None;
    ghost var total: nat := 0;
    ghost var crashIdx: nat := 0;
    var ticks: nat := 0;
    ghost var left: nat := fuel;
    while ticks < fuel
      invariant Survivors(carts, current, total, firstCrash, crashIdx)
      invariant ticks == 0 ==> current == carts
      invariant ticks > 0 ==> |carts| != 1
      invariant ticks == 0 ==> forall k :: 0 <= k < |carts| ==> carts[k].State() == old(carts[k].State())
      invariant ticks + left == fuel
      invariant Run(track.tracks, States(current), firstCrash, left) == Run(track.tracks, old(States(carts)), None, fuel)
    {
      ghost var values := States(current);
      ghost var rest: nat := left - 1;
      var pass;
      pass, total, crashIdx := Round(track, carts, current, firstCrash, total, crashIdx);
      if pass.Err? {
        return Err(pass.error);
      }
      var o := pass.value;
      ghost var p := RunPass(track.tracks, values, firstCrash).value;
      RunStep(track.tracks, values, firstCrash, left, rest, p);
      firstCrash := o.firstCrash;
      if |o.safe| == 1 {
        LastSurvivor(carts, o.safe, total, firstCrash, crashIdx);
        var last := o.safe[0];
        assert States(o.safe)[0] == last.State();
        return Ok((firstCrash, (last.x, last.y)));
      }
      assert |o.safe| + 2 * total == |carts|;
      current := SortCarts(o.safe);
      SortCartsStates(o.safe);
      SurvivorsPermute(carts, o.safe, current, total, firstCrash, crashIdx);
      ticks := ticks + 1;
      left := rest;
    }
    return Err(OutOfFuel);
  }

  // ---------------------------------------------------------------------------
  // Reading the map

  /** The track under a character of the input: cart glyphs stand on straight
      track (`<`, `>` on `-`; `v`, `^` on `|`), everything else is itself. */
  function Underlying(c: char): (t: char)
    ensures (c == '<' || c == '>') ==> t == '-'
    ensures (c == 'v' || c == '^') ==> t == '|'
    ensures HeadingOf(c).None? ==> t == c
  {
    if c == '<' || c == '>' then '-'
    else if c == 'v' || c == '^' then '|'
    else c
  }

  /** The carts on one row, from the first `n` characters, left to right. */
  function RowCarts(line: string, row: int, n: nat): seq<CartState>
    requires n <= |line|
  {
    if n == 0 then []
    else
      var h := HeadingOf(line[n - 1]);
      RowCarts(line, row, n - 1) + (if h.Some? then [CartState(n - 1, row, h.value, 0)] else [])
  }

  /** The carts of the first `n` lines, in reading order. */
  function GridCarts(lines: seq<string>, n: nat): seq<CartState>
    requires n <= |lines|
  {
    if n == 0 then [] else GridCarts(lines, n - 1) + RowCarts(lines[n - 1], n - 1, |lines[n - 1]|)
  }

  /** Row-major order of cart states. */
  predicate ReadingOrder(a: CartState, b: CartState) {
    a.y < b.y || (a.y == b.y && a.x < b.x)
  }

  /** The carts of a row sit on glyphs of that row, in strictly increasing
      column order, and every glyph among the first `n` characters has its cart. */
  lemma {:induction false} RowCartsFacts(line: string, row: int, n: nat)
    requires n <= |line|
    ensures forall k :: 0 <= k < |RowCarts(line, row, n)| ==>
      var c := RowCarts(line, row, n)[k];
      c.y == row && 0 <= c.x < n && HeadingOf(line[c.x]) == Some(c.direct) && c.interNum == 0
    ensures forall a, b :: 0 <= a < b < |RowCarts(line, row, n)| ==>
      RowCarts(line, row, n)[a].x < RowCarts(line, row, n)[b].x
    ensures forall col :: 0 <= col < n && HeadingOf(line[col]).Some? ==>
      CartState(col, row, HeadingOf(line[col]).value, 0) in RowCarts(line, row, n)
  {
    if n > 0 {
      RowCartsFacts(line, row, n - 1);
      var prev := RowCarts(line, row, n - 1);
      var cur := RowCarts(line, row, n);
      assert forall k :: 0 <= k < |prev| ==> cur[k] == prev[k];
      assert forall c :: c in prev ==> c in cur;
    }
  }

  /** Every cart of the map sits on a cart glyph of its own heading, with its
      intersection counter at 0. */
  lemma {:induction false} GridCartsOnGlyphs(lines: seq<string>, n: nat)
    requires n <= |lines|
    ensures forall k :: 0 <= k < |GridCarts(lines, n)| ==>
      var c := GridCarts(lines, n)[k];
      0 <= c.y < n && 0 <= c.x < |lines[c.y]| && HeadingOf(lines[c.y][c.x]) == Some(c.direct)
      && c.interNum == 0
  {
    if n > 0 {
      GridCartsOnGlyphs(lines, n - 1);
      RowCartsFacts(lines[n - 1], n - 1, |lines[n - 1]|);
      var prev := GridCarts(lines, n - 1);
      var rowc := RowCarts(lines[n - 1], n - 1, |lines[n - 1]|);
      assert GridCarts(lines, n) == prev + rowc;
    }
  }

  /** The carts of the map come in reading order: rows top to bottom, and
      left to right within a row. */
  lemma {:induction false} GridCartsOrdered(lines: seq<string>, n: nat)
    requires n <= |lines|
    ensures forall a, b :: 0 <= a < b < |GridCarts(lines, n)| ==>
      ReadingOrder(GridCarts(lines, n)[a], GridCarts(lines, n)[b])
  {
    if n > 0 {
      GridCartsOrdered(lines, n - 1);
      GridCartsOnGlyphs(lines, n - 1);
      RowCartsFacts(lines[n - 1], n - 1, |lines[n - 1]|);
      var prev := GridCarts(lines, n - 1);
      var rowc := RowCarts(lines[n - 1], n - 1, |lines[n - 1]|);
      var cur := GridCarts(lines, n);
      assert cur == prev + rowc;
      forall a, b | 0 <= a < b < |cur| ensures ReadingOrder(cur[a], cur[b]) {
        if b < |prev| {
          assert cur[a] == prev[a] && cur[b] == prev[b];
        } else if a < |prev| {
          assert cur[a] == prev[a] && cur[b] == rowc[b - |prev|];
        } else {
          assert cur[a] == rowc[a - |prev|] && cur[b] == rowc[b - |prev|];
        }
      }
    }
  }

  /** Every cart glyph of the map has its cart. */
  lemma {:induction false} GridCartsComplete(lines: seq<string>, n: nat)
    requires n <= |lines|
    ensures forall row, col :: 0 <= row < n && 0 <= col < |lines[row]| && HeadingOf(lines[row][col]).Some? ==>
      CartState(col, row, HeadingOf(lines[row][col]).value, 0) in GridCarts(lines, n)
  {
    if n > 0 {
      GridCartsComplete(lines, n - 1);
      var line := lines[n - 1];
      RowCartsFacts(line, n - 1, |line|);
      var prev := GridCarts(lines, n - 1);
      var rowc := RowCarts(line, n - 1, |line|);
      var cur := GridCarts(lines, n);
      assert cur == prev + rowc;
      assert forall c :: c in prev ==> c in cur;
      assert forall c :: c in rowc ==> c in cur;
    }
  }

  /** One row of the grid the parse builds: each character replaced by its `Underlying` track. */
  function RowGrid(line: string): (t: seq<char>)
    ensures |t| == |line| && forall c :: 0 <= c < |line| ==> t[c] == Underlying(line[c])
  {
    seq(|line|, c requires 0 <= c < |line| => Underlying(line[c]))
  }

  /** The grid the parse builds, row by row. */
  function Grid(lines: seq<string>): (g: seq<seq<char>>)
    ensures |g| == |lines|
    ensures forall r :: 0 <= r < |lines| ==> g[r] == RowGrid(lines[r])
  {
    seq(|lines|, r requires 0 <= r < |lines| => RowGrid(lines[r]))
  }

  /** The inner loop of the parse in `main`: one row of track, and a fresh cart
      (counter 0, not crashed) for each cart glyph of the row, left to right. */
  method ParseRow(line: string, row: int) returns (rowTracks: seq<char>, carts: seq<Cart>)
    ensures rowTracks == RowGrid(line)
    ensures Distinct(carts)
    ensures forall c :: c in carts ==> fresh(c) && !c.crash
    ensures States(carts) == RowCarts(line, row, |line|)
  {
    rowTracks := [];
    carts := [];
    var col := 0;
    while col < |line|
      invariant 0 <= col <= |line|
      invariant rowTracks == RowGrid(line)[..col]
      invariant Distinct(carts)
      invariant forall c :: c in carts ==> fresh(c) && !c.crash
      invariant |carts| == |RowCarts(line, row, col)|
      invariant forall k :: 0 <= k < |carts| ==> carts[k].State() == RowCarts(line, row, col)[k]
    {
      var t := line[col];
      if t == '<' || t == '>' {
        rowTracks := rowTracks + ['-'];
        var cart := new Cart(col, row, HeadingOf(t).value);
        carts := carts + [cart];
      } else if t == 'v' || t == '^' {
        rowTracks := rowTracks + ['|'];
        var cart := new Cart(col, row, HeadingOf(t).value);
        carts := carts + [cart];
      } else {
        rowTracks := rowTracks + [t];
      }
      assert RowGrid(line)[..col + 1] == RowGrid(line)[..col] + [Underlying(t)];
      col := col + 1;
    }
    assert RowGrid(line)[..col] == RowGrid(line);
  }

  /** Two lists without repeats and without common elements join into one without repeats. */
  lemma DistinctConcat<T>(a: seq<T>, b: seq<T>)
    requires Distinct(a) && Distinct(b)
    requires forall i, j :: 0 <= i < |a| && 0 <= j < |b| ==> a[i] != b[j]
    ensures Distinct(a + b)
  {
    forall i, j | 0 <= i < j < |a + b| ensures (a + b)[i] != (a + b)[j] {
      if j < |a| {
        assert (a + b)[i] == a[i] && (a + b)[j] == a[j];
      } else if i < |a| {
        assert (a + b)[i] == a[i] && (a + b)[j] == b[j - |a|];
      } else {
        assert (a + b)[i] == b[i - |a|] && (a + b)[j] == b[j - |a|];
      }
    }
  }

  /** The parse loop of `main`: builds the track grid row by row and registers a
      fresh cart (counter 0, not crashed) for each cart glyph, in reading order. */
  method ParseMap(lines: seq<string>) returns (track: Track, carts: seq<Cart>)
    ensures fresh(track) && track.tracks == Grid(lines)
    ensures Distinct(carts)
    ensures forall c :: c in carts ==> fresh(c) && !c.crash
    ensures States(carts) == GridCarts(lines, |lines|)
  {
    var tracks: seq<seq<char>> := [];
    carts := [];
    var row := 0;
    while row < |lines|
      invariant 0 <= row <= |lines|
      invariant tracks == Grid(lines)[..row]
      invariant Distinct(carts)
      invariant forall c :: c in carts ==> fresh(c) && !c.crash
      invariant States(carts) == GridCarts(lines, row)
    {
      var rowTracks, rowCarts := ParseRow(lines[row], row);
      assert GridCarts(lines, row + 1) == GridCarts(lines, row) + RowCarts(lines[row], row, |lines[row]|);
      forall i, j | 0 <= i < |carts| && 0 <= j < |rowCarts| ensures carts[i] != rowCarts[j] {
        assert rowCarts[j] in rowCarts;
      }
      DistinctConcat(carts, rowCarts);
      StatesConcat(carts, rowCarts);
      carts := carts + rowCarts;
      tracks := tracks + [rowTracks];
      assert Grid(lines)[..row + 1] == Grid(lines)[..row] + [Grid(lines)[row]];
      row := row + 1;
    }
    track := new Track(tracks);
  }

  /** The values of the carts kept are the values kept. */
  lemma {:induction false} StatesKeep(cs: seq<Cart>, crashed: seq<bool>)
    requires |crashed| == |cs|
    ensures States(Keep(cs, crashed)) == Keep(States(cs), crashed)
    decreases |cs|
  {
    if |cs| > 0 {
      var n := |cs| - 1;
      StatesKeep(cs[..n], crashed[..n]);
      assert States(cs[..n]) == States(cs)[..n];
      StatesConcat(Keep(cs[..n], crashed[..n]), if crashed[n] then [] else [cs[n]]);
    }
  }

  /** The cart values of two lists joined are the values of each, joined. */
  lemma StatesConcat(a: seq<Cart>, b: seq<Cart>)
    ensures States(a + b) == States(a) + States(b)
  {
    assert forall k :: 0 <= k < |a + b| ==> (a + b)[k] == if k < |a| then a[k] else b[k - |a|];
  }
}
