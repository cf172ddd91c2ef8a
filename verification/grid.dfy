/** Geometry shared by the snake engine, its autopilot and the browser client:
    the 20 x 30 board, its cells and the four moves. */
module Grid {

  /** Board size in cells (GRID_WIDTH, GRID_HEIGHT). */
  const Width: int := 20
  const Height: int := 30

  /** A board cell; the JSON snapshot carries it as a pair [x, y]. */
  datatype Cell = Cell(x: int, y: int)

  /** The four moves of the `Direction` enum, with their unit vectors.
      Screen coordinates: y grows downwards, so UP is (0, -1). */
  datatype Direction = Up | Down | Left | Right {
    function DX(): int {
      match this
      case Left => -1
      case Right => 1
      case _ => 0
    }

    function DY(): int {
      match this
      case Up => -1
      case Down => 1
      case _ => 0
    }
  }

  /** The order in which `for d in Direction` visits the members. */
  const Directions: seq<Direction> := [Up, Down, Left, Right]

  /** Position of a direction in the enum's iteration order. */
  function Rank(d: Direction): (r: nat)
    ensures r < |Directions| && Directions[r] == d
  {
    match d
    case Up => 0
    case Down => 1
    case Left => 2
    case Right => 3
  }

  /** `Rank` inverts indexing into `Directions`. */
  lemma RankOfIndex(i: nat)
    requires i < |Directions|
    ensures Rank(Directions[i]) == i
  {
    if i == 0 {
    } else if i == 1 {
    } else if i == 2 {
    }
  }

  /** Two cells are 4-neighbours. */
  predicate Adjacent(a: Cell, b: Cell) {
    (a.x == b.x && (a.y - b.y == 1 || b.y - a.y == 1)) ||
    (a.y == b.y && (a.x - b.x == 1 || b.x - a.x == 1))
  }

  /** The cell one step from `c` in direction `d`: `(x + dx, y + dy)`. */
  function Neighbour(c: Cell, d: Direction): (n: Cell)
    ensures Adjacent(c, n)
    ensures n.x - c.x == d.DX() && n.y - c.y == d.DY()
  {
    Cell(c.x + d.DX(), c.y + d.DY())
  }

  /** Every 4-neighbour of a cell is reached by one of the four moves. */
  lemma AdjacentIsNeighbour(a: Cell, b: Cell)
    requires Adjacent(a, b)
    ensures exists d :: Neighbour(a, d) == b
  {
    if b.x == a.x + 1 {
      assert Neighbour(a, Right) == b;
    } else if b.x == a.x - 1 {
      assert Neighbour(a, Left) == b;
    } else if b.y == a.y + 1 {
      assert Neighbour(a, Down) == b;
    } else {
      assert Neighbour(a, Up) == b;
    }
  }

  predicate InRect(c: Cell, w: int, h: int) {
    0 <= c.x < w && 0 <= c.y < h
  }

  /** The cell lies inside the 20 x 30 board. */
  predicate InGrid(c: Cell) {
    InRect(c, Width, Height)
  }

  predicate Distinct<T(==)>(s: seq<T>) {
    forall i, j :: 0 <= i < j < |s| ==> s[i] != s[j]
  }

  /** `s` with its first occurrence of `x` removed. */
  function RemoveOne<T(==, !new)>(s: seq<T>, x: T): (r: seq<T>)
    requires x in s
    ensures |r| == |s| - 1
    ensures forall y :: y != x ==> (y in r <==> y in s)
  {
    if s[0] == x then s[1..] else [s[0]] + RemoveOne(s[1..], x)
  }

  /** A sequence shorter than a duplicate-free sequence misses one of its elements. */
  lemma {:induction false} Pigeonhole<T(!new)>(small: seq<T>, big: seq<T>)
    requires Distinct(big) && |small| < |big|
    decreases |big|
    ensures exists c :: c in big && c !in small
  {
    var last := big[|big| - 1];
    if last !in small {
      assert last in big;
    } else {
      var rest := big[..|big| - 1];
      var fewer := RemoveOne(small, last);
      Pigeonhole(fewer, rest);
      var c :| c in rest && c !in fewer;
      assert c != last;
      assert c in big;
    }
  }
}
