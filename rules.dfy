/** The rules of the game as a state machine over values: one move, a run of
    moves, and the invariant every reachable state keeps.
 */
module Rules {
  import opened Board

  /** What the game engine holds: the dimensions, the grid, the active
      player and the terminal flag. */
  datatype GameState = GameState(height: nat, width: nat, cells: Grid, curr: Player, over: bool)

  /** What one click on a column amounts to. */
  datatype MoveResult =
    | Ignored
    | Placed(row: nat, col: nat)
    | Won(row: nat, col: nat, winner: Player)
    | Tied(row: nat, col: nat)

  datatype Transition = Transition(next: GameState, result: MoveResult)

  ghost predicate Shaped(s: GameState) {
    WellFormed(s.cells, s.height, s.width)
  }

  /** A freshly created game: an empty grid, player 1 to move, not over. */
  function Initial(height: nat, width: nat): (s: GameState)
    ensures s.height == height && s.width == width && Shaped(s) && s.curr == 1 && !s.over
    ensures forall y, x :: 0 <= y < height && 0 <= x < width ==> s.cells[y][x] == Empty
  {
    GameState(height, width, EmptyGrid(height, width), 1, false)
  }

  /** One click on column x. A click on a finished game, outside the grid or
      on a full column is ignored; otherwise the active player's piece lands
      at the column's landing row, a win is checked first, then a tie, and only
      a move that ends neither passes the turn to the other player. */
  ghost function Move(s: GameState, x: int): (t: Transition)
    requires Shaped(s)
    ensures Shaped(t.next) && t.next.height == s.height && t.next.width == s.width
  {
    if s.over || !(0 <= x < s.width) then Transition(s, Ignored)
    else match LandingRow(s.cells, x)
      case None => Transition(s, Ignored)
      case Some(y) =>
        var g := Place(s.cells, y, x, Piece(s.curr));
        if HasWin(g, s.curr) then Transition(s.(cells := g, over := true), Won(y, x, s.curr))
        else if Full(g) then Transition(s.(cells := g, over := true), Tied(y, x))
        else Transition(s.(cells := g, curr := Other(s.curr)), Placed(y, x))
  }

  /** The invariant of every reachable game state: the grid keeps its shape,
      every column is stacked from the bottom, the player who is not on turn
      never has four in a row, the game is over only after a win by the
      recorded player or on a full grid, a running game has no winner, and a
      full grid (of at least one cell) means the game is over. */
  ghost predicate Consistent(s: GameState) {
    Shaped(s) &&
    Stacked(s.cells) &&
    !HasWin(s.cells, Other(s.curr)) &&
    (s.over ==> HasWin(s.cells, s.curr) || Full(s.cells)) &&
    (!s.over ==> !HasWin(s.cells, s.curr)) &&
    (s.height * s.width > 0 && Full(s.cells) ==> s.over)
  }

  lemma InitialConsistent(height: nat, width: nat)
    ensures Consistent(Initial(height, width))
  {
    if height * width > 0 {
      assert height != 0 && width != 0;
      assert Initial(height, width).cells[0][0] == Empty;
    }
  }

  // ---------------------------------------------------------------------
  // One move

  /** A move is ignored exactly when the game is over, the column is outside
      the grid or the column is full, and an ignored move changes nothing. */
  lemma IgnoredMove(s: GameState, x: int)
    requires Shaped(s)
    ensures Move(s, x).result == Ignored <==>
              s.over || !(0 <= x < s.width) || ColumnFull(s.cells, x)
    ensures Move(s, x).result == Ignored ==> Move(s, x).next == s
  {
  }

  /** An accepted move writes the active player's piece into the landing row
      of the column, a previously empty cell, and leaves every other cell as
      it was; in particular no occupied cell is overwritten. */
  lemma AcceptedMoveWritesOneCell(s: GameState, x: int)
    requires Shaped(s)
    requires Move(s, x).result != Ignored
    ensures 0 <= x < s.width && Move(s, x).result.col == x
    ensures var t := Move(s, x); IsLandingRow(s.cells, x, t.result.row)
    ensures var t := Move(s, x); t.next.cells == Place(s.cells, t.result.row, x, Piece(s.curr))
    ensures var t := Move(s, x); t.next.cells[t.result.row][x] == Piece(s.curr)
    ensures var t := Move(s, x);
      forall i, j :: 0 <= i < s.height && 0 <= j < s.width && (i, j) != (t.result.row, x) ==>
        t.next.cells[i][j] == s.cells[i][j]
    ensures var t := Move(s, x);
      forall i, j :: 0 <= i < s.height && 0 <= j < s.width && s.cells[i][j] != Empty ==>
        t.next.cells[i][j] == s.cells[i][j]
  {
  }

  /** An accepted move keeps every column a block at the bottom. */
  lemma AcceptedMoveKeepsStacked(s: GameState, x: int)
    requires Shaped(s) && Stacked(s.cells)
    requires Move(s, x).result != Ignored
    ensures Stacked(Move(s, x).next.cells)
  {
    PlaceKeepsStacked(s.cells, Move(s, x).result.row, x, s.curr);
  }

  /** Each accepted move into a column moves that column's landing row one
      up, until the column is full and further moves into it are ignored. */
  lemma AcceptedMoveRaisesLandingRow(s: GameState, x: int)
    requires Shaped(s) && Stacked(s.cells)
    requires Move(s, x).result != Ignored
    ensures var t := Move(s, x);
      LandingRow(t.next.cells, x) == if t.result.row == 0 then None else Some(t.result.row - 1)
  {
    var t := Move(s, x);
    AcceptedMoveWritesOneCell(s, x);
    PlaceRaisesLandingRow(s.cells, t.result.row, x, s.curr);
  }

  /** An accepted move raises the occupied count by one. */
  lemma AcceptedMoveCountsOne(s: GameState, x: int)
    requires Shaped(s)
    requires Move(s, x).result != Ignored
    ensures Count(Move(s, x).next.cells) == Count(s.cells) + 1
  {
    CountFill(s.cells, Move(s, x).result.row, x, Piece(s.curr));
  }

  /** A move that completes four in a row ends the game and keeps the mover
      as the recorded player, even when it also fills the grid. */
  lemma WinBeforeTie(s: GameState, x: int)
    requires Shaped(s)
    requires Move(s, x).result != Ignored
    requires HasWin(Move(s, x).next.cells, s.curr)
    ensures var t := Move(s, x); t.result.Won? && t.result.winner == s.curr
    ensures var t := Move(s, x); t.next.over && t.next.curr == s.curr
  {
  }

  /** A move that completes no line ends the game in a tie when it fills the
      grid, and otherwise passes the turn and keeps the game running. */
  lemma NoWinTieOrToggle(s: GameState, x: int)
    requires Shaped(s)
    requires Move(s, x).result != Ignored
    requires !HasWin(Move(s, x).next.cells, s.curr)
    ensures var t := Move(s, x);
      Full(t.next.cells) ==> t.result.Tied? && t.next.over && t.next.curr == s.curr
    ensures var t := Move(s, x);
      !Full(t.next.cells) ==> t.result.Placed? && !t.next.over && t.next.curr == Other(s.curr)
  {
  }

  /** Every move keeps the invariant. */
  lemma MovePreservesConsistent(s: GameState, x: int)
    requires Consistent(s)
    ensures Consistent(Move(s, x).next)
  {
    var t := Move(s, x);
    if t.result != Ignored {
      var y := t.result.row;
      AcceptedMoveKeepsStacked(s, x);
      PlaceKeepsOtherWinless(s.cells, y, x, s.curr);
    }
  }

  // ---------------------------------------------------------------------
  // A run of moves

  datatype Run = Run(last: GameState, accepted: nat)

  /** The state after clicking the columns xs in order, and how many of the
      clicks were accepted. */
  ghost function Play(s: GameState, xs: seq<int>): (r: Run)
    requires Shaped(s)
    ensures Shaped(r.last) && r.last.height == s.height && r.last.width == s.width
    decreases |xs|
  {
    if xs == [] then Run(s, 0)
    else
      var t := Move(s, xs[0]);
      var rest := Play(t.next, xs[1..]);
      Run(rest.last, rest.accepted + if t.result == Ignored then 0 else 1)
  }

  /** Once the game is over, no sequence of clicks changes anything. */
  lemma {:induction false} OverIsPermanent(s: GameState, xs: seq<int>)
    requires Shaped(s) && s.over
    ensures Play(s, xs) == Run(s, 0)
    decreases |xs|
  {
    if xs != [] {
      OverIsPermanent(s, xs[1..]);
    }
  }

  /** The invariant holds after any sequence of clicks. */
  lemma {:induction false} PlayPreservesConsistent(s: GameState, xs: seq<int>)
    requires Consistent(s)
    ensures Consistent(Play(s, xs).last)
    decreases |xs|
  {
    if xs != [] {
      MovePreservesConsistent(s, xs[0]);
      PlayPreservesConsistent(Move(s, xs[0]).next, xs[1..]);
    }
  }

  /** Every accepted click fills one more cell, so a game accepts at most
      height * width moves whatever is clicked. */
  lemma {:induction false} AcceptedMovesBounded(s: GameState, xs: seq<int>)
    requires Shaped(s)
    ensures Play(s, xs).accepted + Count(s.cells) <= s.height * s.width
    decreases |xs|
  {
    if xs == [] {
      CountBound(s.cells, s.height, s.width);
    } else {
      var t := Move(s, xs[0]);
      if t.result != Ignored {
        AcceptedMoveCountsOne(s, xs[0]);
      }
      AcceptedMovesBounded(t.next, xs[1..]);
    }
  }

  /** The occupied count after a run is the count before it plus the number
      of accepted clicks. */
  lemma {:induction false} PlayCount(s: GameState, xs: seq<int>)
    requires Shaped(s)
    ensures Count(Play(s, xs).last.cells) == Count(s.cells) + Play(s, xs).accepted
    decreases |xs|
  {
    if xs != [] {
      var t := Move(s, xs[0]);
      if t.result != Ignored {
        AcceptedMoveCountsOne(s, xs[0]);
      }
      PlayCount(t.next, xs[1..]);
    }
  }

  /** A consistent game whose run fills the remaining cells ends in a
      finished state: the board is then full, and a full board is over. */
  lemma FillingRunEndsGame(s: GameState, xs: seq<int>)
    requires Consistent(s) && s.height * s.width > 0
    requires Count(s.cells) + Play(s, xs).accepted == s.height * s.width
    ensures Play(s, xs).last.over
  {
    var last := Play(s, xs).last;
    PlayCount(s, xs);
    CountFull(last.cells, s.height, s.width);
    PlayPreservesConsistent(s, xs);
  }

  /** From a new game with at least one cell, any sequence of clicks is
      accepted at most height * width times, and the game is over once
      height * width clicks have been accepted. */
  lemma GameEndsWithinBoardSize(height: nat, width: nat, xs: seq<int>)
    requires height * width > 0
    ensures Play(Initial(height, width), xs).accepted <= height * width
    ensures Play(Initial(height, width), xs).accepted == height * width ==>
              Play(Initial(height, width), xs).last.over
  {
    var s := Initial(height, width);
    CountEmpty(s.cells);
    AcceptedMovesBounded(s, xs);
    InitialConsistent(height, width);
    if Play(s, xs).accepted == height * width {
      FillingRunEndsGame(s, xs);
    }
  }
}
