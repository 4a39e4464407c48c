/** The Connect Four grid as a value: cells, gravity, lines of four, fullness
    and the count of occupied cells. Row 0 is the top row, row |g| - 1 the
    bottom row, and a grid is indexed g[y][x] (row, then column).
 */
module Board {

  datatype Option<T> = None | Some(value: T)

  /** A player is identified by its sequence number: 1 or 2. */
  type Player = p: int | p == 1 || p == 2 witness 1

  /** The other of the two players. */
  function Other(p: Player): (q: Player)
    ensures q != p
  {
    if p == 1 then 2 else 1
  }

  /** A cell is empty or holds the piece of one player. */
  datatype Cell = Empty | Piece(owner: Player)

  type Grid = seq<seq<Cell>>

  /** `height` rows of `width` cells each. */
  ghost predicate WellFormed(g: Grid, height: nat, width: nat) {
    |g| == height && forall y :: 0 <= y < height ==> |g[y]| == width
  }

  /** Every row has a cell in column x. */
  ghost predicate HasColumn(g: Grid, x: int) {
    0 <= x && forall y :: 0 <= y < |g| ==> x < |g[y]|
  }

  function EmptyGrid(height: nat, width: nat): (g: Grid)
    ensures WellFormed(g, height, width)
    ensures forall y, x :: 0 <= y < height && 0 <= x < width ==> g[y][x] == Empty
  {
    seq(height, _ => seq(width, _ => Empty))
  }

  /** The grid with cell (y, x) set to c. */
  function Place(g: Grid, y: nat, x: nat, c: Cell): (g': Grid)
    requires y < |g| && x < |g[y]|
    ensures |g'| == |g| && forall i :: 0 <= i < |g| ==> |g'[i]| == |g[i]|
    ensures g'[y][x] == c
    ensures forall i, j :: 0 <= i < |g| && 0 <= j < |g[i]| && (i, j) != (y, x) ==> g'[i][j] == g[i][j]
  {
    g[y := g[y][x := c]]
  }

  // ---------------------------------------------------------------------
  // Gravity

  /** y is where a piece dropped into column x comes to rest: the cell is
      empty and every cell below it in that column is occupied. */
  ghost predicate IsLandingRow(g: Grid, x: int, y: int)
    requires HasColumn(g, x)
  {
    0 <= y < |g| && g[y][x] == Empty &&
    forall i :: y < i < |g| ==> g[i][x] != Empty
  }

  ghost predicate ColumnFull(g: Grid, x: int)
    requires HasColumn(g, x)
  {
    forall y :: 0 <= y < |g| ==> g[y][x] != Empty
  }

  /** Scans rows n-1, n-2, ..., 0 of column x for the first empty cell. */
  function SpotFrom(g: Grid, x: int, n: nat): (r: Option<nat>)
    requires HasColumn(g, x) && n <= |g|
    ensures r.Some? ==> r.value < n && g[r.value][x] == Empty &&
                        forall i :: r.value < i < n ==> g[i][x] != Empty
    ensures r.None? <==> forall i :: 0 <= i < n ==> g[i][x] != Empty
    decreases n
  {
    if n == 0 then None
    else if g[n - 1][x] == Empty then Some(n - 1)
    else SpotFrom(g, x, n - 1)
  }

  /** The landing row of column x, or None when the column is full. */
  function LandingRow(g: Grid, x: int): (r: Option<nat>)
    requires HasColumn(g, x)
    ensures r.Some? ==> IsLandingRow(g, x, r.value)
    ensures r.None? <==> ColumnFull(g, x)
  {
    SpotFrom(g, x, |g|)
  }

  /** A column has at most one landing row. */
  lemma LandingRowUnique(g: Grid, x: int, y1: int, y2: int)
    requires HasColumn(g, x)
    requires IsLandingRow(g, x, y1) && IsLandingRow(g, x, y2)
    ensures y1 == y2
  {
  }

  /** In every column the occupied cells form one block at the bottom:
      below an occupied cell every cell is occupied. */
  ghost predicate Stacked(g: Grid) {
    forall y1, y2, x ::
      (0 <= y1 <= y2 < |g| && 0 <= x < |g[y1]| && 0 <= x < |g[y2]| && g[y1][x] != Empty) ==>
        g[y2][x] != Empty
  }

  /** Dropping a piece at the landing row keeps every column stacked. */
  lemma PlaceKeepsStacked(g: Grid, y: nat, x: nat, p: Player)
    requires HasColumn(g, x) && IsLandingRow(g, x, y) && Stacked(g)
    ensures Stacked(Place(g, y, x, Piece(p)))
  {
  }

  /** After a piece lands at row y of a stacked column, the column's next
      landing row is the one just above, or none when y was the top row. */
  lemma PlaceRaisesLandingRow(g: Grid, y: nat, x: nat, p: Player)
    requires HasColumn(g, x) && IsLandingRow(g, x, y) && Stacked(g)
    ensures LandingRow(Place(g, y, x, Piece(p)), x) == if y == 0 then None else Some(y - 1)
  {
    var g' := Place(g, y, x, Piece(p));
    if y > 0 {
      assert g[y - 1][x] == Empty;
      LandingRowUnique(g', x, y - 1, LandingRow(g', x).value);
    }
  }

  // ---------------------------------------------------------------------
  // Lines of four

  /** The four directions a line is scanned in from its first cell. */
  datatype Direction = Right | Down | DownRight | DownLeft {
    function Dy(): int {
      if this == Right then 0 else 1
    }
    function Dx(): int {
      match this
      case Right => 1
      case Down => 0
      case DownRight => 1
      case DownLeft => -1
    }
  }

  /** Cell (y, x) lies inside the grid and holds a piece of p. */
  predicate Owns(g: Grid, p: Player, y: int, x: int) {
    0 <= y < |g| && 0 <= x < |g[y]| && g[y][x] == Piece(p)
  }

  /** The four cells starting at (y, x) in direction d all belong to p. */
  predicate LineAt(g: Grid, p: Player, y: int, x: int, d: Direction) {
    Owns(g, p, y, x) &&
    Owns(g, p, y + d.Dy(), x + d.Dx()) &&
    Owns(g, p, y + 2 * d.Dy(), x + 2 * d.Dx()) &&
    Owns(g, p, y + 3 * d.Dy(), x + 3 * d.Dx())
  }

  /** p has four in a row somewhere on the grid. */
  ghost predicate HasWin(g: Grid, p: Player) {
    exists y: int, x: int, d: Direction :: LineAt(g, p, y, x, d)
  }

  /** An empty grid holds no line for anybody. */
  lemma EmptyGridHasNoWin(height: nat, width: nat, p: Player)
    ensures !HasWin(EmptyGrid(height, width), p)
  {
  }

  /** A piece of p cannot complete a line for the other player. */
  lemma PlaceKeepsOtherWinless(g: Grid, y: nat, x: nat, p: Player)
    requires y < |g| && x < |g[y]|
    requires !HasWin(g, Other(p))
    ensures !HasWin(Place(g, y, x, Piece(p)), Other(p))
  {
    var g' := Place(g, y, x, Piece(p));
    var q := Other(p);
    if HasWin(g', q) {
      var y0: int, x0: int, d: Direction :| LineAt(g', q, y0, x0, d);
      OwnsBeforePlace(g, y, x, p, y0, x0);
      OwnsBeforePlace(g, y, x, p, y0 + d.Dy(), x0 + d.Dx());
      OwnsBeforePlace(g, y, x, p, y0 + 2 * d.Dy(), x0 + 2 * d.Dx());
      OwnsBeforePlace(g, y, x, p, y0 + 3 * d.Dy(), x0 + 3 * d.Dx());
      assert LineAt(g, q, y0, x0, d);
    }
  }

  lemma OwnsBeforePlace(g: Grid, y: nat, x: nat, p: Player, i: int, j: int)
    requires y < |g| && x < |g[y]|
    requires Owns(Place(g, y, x, Piece(p)), Other(p), i, j)
    ensures Owns(g, Other(p), i, j)
  {
  }

  // ---------------------------------------------------------------------
  // Fullness and the count of occupied cells

  /** Every cell of the grid is occupied. */
  ghost predicate Full(g: Grid) {
    forall y, x :: 0 <= y < |g| && 0 <= x < |g[y]| ==> g[y][x] != Empty
  }

  function RowCount(r: seq<Cell>): (n: nat)
    ensures n <= |r|
  {
    if r == [] then 0 else (if r[0] != Empty then 1 else 0) + RowCount(r[1..])
  }

  /** The number of occupied cells. */
  function Count(g: Grid): nat {
    if g == [] then 0 else RowCount(g[0]) + Count(g[1..])
  }

  lemma {:induction false} RowCountFill(r: seq<Cell>, x: nat, c: Cell)
    requires x < |r| && r[x] == Empty && c != Empty
    ensures RowCount(r[x := c]) == RowCount(r) + 1
  {
    if x > 0 {
      assert r[x := c][1..] == r[1..][x - 1 := c];
      RowCountFill(r[1..], x - 1, c);
    } else {
      assert r[x := c][1..] == r[1..];
    }
  }

  /** Filling an empty cell raises the occupied count by exactly one. */
  lemma {:induction false} CountFill(g: Grid, y: nat, x: nat, c: Cell)
    requires y < |g| && x < |g[y]| && g[y][x] == Empty && c != Empty
    ensures Count(Place(g, y, x, c)) == Count(g) + 1
  {
    var g' := Place(g, y, x, c);
    if y > 0 {
      assert g'[1..] == Place(g[1..], y - 1, x, c);
      CountFill(g[1..], y - 1, x, c);
    } else {
      assert g'[1..] == g[1..];
      RowCountFill(g[0], x, c);
    }
  }

  /** A grid of height rows of width cells has at most height * width occupied cells. */
  lemma {:induction false} CountBound(g: Grid, height: nat, width: nat)
    requires WellFormed(g, height, width)
    ensures Count(g) <= height * width
  {
    if g != [] {
      CountBound(g[1..], height - 1, width);
      assert height * width == (height - 1) * width + width;
    }
  }

  /** A grid with no occupied cell has count zero. */
  lemma {:induction false} CountEmpty(g: Grid)
    requires forall y, x :: 0 <= y < |g| && 0 <= x < |g[y]| ==> g[y][x] == Empty
    ensures Count(g) == 0
  {
    if g != [] {
      RowCountEmpty(g[0]);
      CountEmpty(g[1..]);
    }
  }

  lemma {:induction false} RowCountEmpty(r: seq<Cell>)
    requires forall x :: 0 <= x < |r| ==> r[x] == Empty
    ensures RowCount(r) == 0
  {
    if r != [] {
      RowCountEmpty(r[1..]);
    }
  }

  /** A row whose count equals its length is fully occupied. */
  lemma {:induction false} RowCountFull(r: seq<Cell>)
    requires RowCount(r) == |r|
    ensures forall x :: 0 <= x < |r| ==> r[x] != Empty
  {
    if r != [] {
      RowCountFull(r[1..]);
    }
  }

  /** A grid of height rows of width cells with height * width occupied
      cells is full. */
  lemma {:induction false} CountFull(g: Grid, height: nat, width: nat)
    requires WellFormed(g, height, width) && Count(g) == height * width
    ensures Full(g)
  {
    if g != [] {
      CountBound(g[1..], height - 1, width);
      assert height * width == (height - 1) * width + width;
      CountFull(g[1..], height - 1, width);
      RowCountFull(g[0]);
      forall y, x | 0 <= y < |g| && 0 <= x < |g[y]| ensures g[y][x] != Empty {
        if y > 0 {
          assert g[y] == g[1..][y - 1];
        }
      }
    }
  }
}
