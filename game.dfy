/** The game object: a board of height rows by width columns updated in
    place, the active player and the terminal flag. Every method is proved
    against the value-level rules in module Rules.
 */
module Connect4 {
  import opened Board
  import opened Rules

  /** A height x width board of empty cells, filled row by row. */
  method MakeBoard(height: nat, width: nat) returns (b: array2<Cell>)
    ensures fresh(b) && b.Length0 == height && b.Length1 == width
    ensures forall y, x :: 0 <= y < height && 0 <= x < width ==> b[y, x] == Empty
  {
    b := new Cell[height, width];
    var y := 0;
    while y < height
      invariant 0 <= y <= height
      invariant forall i, j :: 0 <= i < y && 0 <= j < width ==> b[i, j] == Empty
    {
      var x := 0;
      while x < width
        invariant 0 <= x <= width
        invariant forall i, j :: 0 <= i < y && 0 <= j < width ==> b[i, j] == Empty
        invariant forall j :: 0 <= j < x ==> b[y, j] == Empty
      {
        b[y, x] := Empty;
        x := x + 1;
      }
      y := y + 1;
    }
  }

  class Game {
    const height: nat
    const width: nat
    /** board[y, x]; row height - 1 is the bottom row. */
    const board: array2<Cell>
    var currPlayer: Player
    var gameOver: bool
    /** The contents of the board as a value. */
    ghost var cells: Grid

    /** The board array holds exactly the ghost grid. */
    ghost predicate Coherent()
      reads this, board
    {
      board.Length0 == height && board.Length1 == width &&
      WellFormed(cells, height, width) &&
      forall y, x :: 0 <= y < height && 0 <= x < width ==> board[y, x] == cells[y][x]
    }

    /** The game state as a value. */
    ghost function Snapshot(): GameState
      reads this
    {
      GameState(height, width, cells, currPlayer, gameOver)
    }

    ghost predicate Valid()
      reads this, board
    {
      Coherent() && Consistent(Snapshot())
    }

    /** A new game: an empty board, player 1 to move, not over. */
    constructor (height: nat, width: nat)
      ensures Valid() && fresh(board)
      ensures Snapshot() == Initial(height, width)
    {
      var b := MakeBoard(height, width);
      this.height := height;
      this.width := width;
      board := b;
      cells := EmptyGrid(height, width);
      currPlayer := 1;
      gameOver := false;
      new;
      InitialConsistent(height, width);
    }

    /** The row a piece dropped into column x lands in, scanning from the
        bottom row up; None when the column is full. */
    method FindSpotForCol(x: int) returns (spot: Option<nat>)
      requires Coherent() && 0 <= x < width
      ensures spot.Some? ==> IsLandingRow(cells, x, spot.value)
      ensures spot.None? <==> ColumnFull(cells, x)
    {
      var y: int := height - 1;
      while y >= 0
        invariant -1 <= y < height
        invariant forall i :: y < i < height ==> cells[i][x] != Empty
      {
        if board[y, x] == Empty {
          return Some(y);
        }
        y := y - 1;
      }
      return None;
    }

    /** Cell (y, x) lies inside the board and holds a piece of the active player. */
    predicate OwnedAt(y: int, x: int)
      reads this, board
      requires Coherent()
      ensures OwnedAt(y, x) <==> Owns(cells, currPlayer, y, x)
    {
      0 <= y < height && 0 <= x < width && board[y, x] == Piece(currPlayer)
    }

    /** The four cells from (y, x) in direction d all hold pieces of the
        active player. */
    predicate LineOwned(y: int, x: int, d: Direction)
      reads this, board
      requires Coherent()
      ensures LineOwned(y, x, d) <==> LineAt(cells, currPlayer, y, x, d)
    {
      OwnedAt(y, x) &&
      OwnedAt(y + d.Dy(), x + d.Dx()) &&
      OwnedAt(y + 2 * d.Dy(), x + 2 * d.Dx()) &&
      OwnedAt(y + 3 * d.Dy(), x + 3 * d.Dx())
    }

    /** Scans every cell as the start of a line in each of the four
        directions and reports whether the active player has four in a row. */
    method CheckForWin() returns (won: bool)
      requires Coherent()
      ensures won <==> HasWin(cells, currPlayer)
    {
      var y := 0;
      while y < height
        invariant 0 <= y <= height
        invariant forall i, j, d :: 0 <= i < y && 0 <= j < width ==> !LineAt(cells, currPlayer, i, j, d)
      {
        var x := 0;
        while x < width
          invariant 0 <= x <= width
          invariant forall i, j, d :: 0 <= i < y && 0 <= j < width ==> !LineAt(cells, currPlayer, i, j, d)
          invariant forall j, d :: 0 <= j < x ==> !LineAt(cells, currPlayer, y, j, d)
        {
          if LineOwned(y, x, Right) || LineOwned(y, x, Down) ||
             LineOwned(y, x, DownRight) || LineOwned(y, x, DownLeft) {
            return true;
          }
          x := x + 1;
        }
        y := y + 1;
      }
      return false;
    }

    /** Whether every cell of the board is occupied. */
    method IsBoardFull() returns (full: bool)
      requires Coherent()
      ensures full <==> Full(cells)
    {
      var y := 0;
      while y < height
        invariant 0 <= y <= height
        invariant forall i, j :: 0 <= i < y && 0 <= j < width ==> cells[i][j] != Empty
      {
        var x := 0;
        while x < width
          invariant 0 <= x <= width
          invariant forall i, j :: 0 <= i < y && 0 <= j < width ==> cells[i][j] != Empty
          invariant forall j :: 0 <= j < x ==> cells[y][j] != Empty
        {
          if board[y, x] == Empty {
            return false;
          }
          x := x + 1;
        }
        y := y + 1;
      }
      return true;
    }

    /** A click on column x: ignored when the game is over, the column is
        outside the board or full; otherwise the active player's piece is
        placed, a win is checked, then a tie, and only then the turn passes. */
    method HandleClick(x: int) returns (result: MoveResult)
      requires Valid()
      modifies this, board
      ensures Valid()
      ensures Transition(Snapshot(), result) == Move(old(Snapshot()), x)
    {
      if gameOver {
        return Ignored;
      }
      if !(0 <= x < width) {
        return Ignored;
      }
      var spot := FindSpotForCol(x);
      if spot.None? {
        return Ignored;
      }
      LandingRowUnique(cells, x, spot.value, LandingRow(cells, x).value);
      MovePreservesConsistent(Snapshot(), x);
      result := Commit(spot.value, x);
    }

    /** The accepted part of a click: the piece lands at (y, x), then the win
        test, the tie test and the change of turn follow in that order. */
    method Commit(y: nat, x: nat) returns (result: MoveResult)
      requires Coherent() && !gameOver && x < width
      requires LandingRow(cells, x) == Some(y)
      modifies this, board
      ensures Coherent()
      ensures Transition(Snapshot(), result) == Move(old(Snapshot()), x)
    {
      Drop(y, x);

      var won := CheckForWin();
      if won {
        gameOver := true;
        return Won(y, x, currPlayer);
      }

      var full := IsBoardFull();
      if full {
        gameOver := true;
        return Tied(y, x);
      }

      currPlayer := Other(currPlayer);
      result := Placed(y, x);
    }

    /** Writes the active player's piece into cell (y, x) of the board. */
    method Drop(y: nat, x: nat)
      requires Coherent() && y < height && x < width
      modifies this`cells, board
      ensures Coherent()
      ensures cells == Place(old(cells), y, x, Piece(currPlayer))
    {
      board[y, x] := Piece(currPlayer);
      cells := Place(cells, y, x, Piece(currPlayer));
    }
  }
}
