/** The page's game engine as one object: the board and the player whose turn
    it is, with the operations the page runs on them. */
module Connect4 {
  import opened Board
  import opened Rules

  class Game {
    /** The in-memory board: HEIGHT rows of WIDTH cells during a game, no rows
        at all right after a reset. */
    var board: Grid
    /** The player whose piece the next click drops. */
    var currPlayer: Player
    /** What the persistent "board" slot last received. */
    ghost var saved: Grid

    /** The board has its full shape unless it was just reset, and the saved
        grid is the board, except that a freshly built empty board is not saved
        until the first piece lands. */
    ghost predicate Valid()
      reads this
    {
      && (board == [] || WellFormed(board))
      && (saved == board || (saved == [] && board == EmptyGrid()))
    }

    /** Page load: player 1 is active and the board is what was saved, or no
        rows when nothing was. */
    constructor Load(stored: Grid)
      requires stored == [] || WellFormed(stored)
      ensures Valid()
      ensures board == stored && saved == stored && currPlayer == 1
    {
      board := stored;
      saved := stored;
      currPlayer := 1;
    }

    /** The start-up choice: a saved game with pieces on it is resumed when the
        player asks to, and anything else starts a new game. */
    method Start(resume: bool)
      requires Valid()
      modifies this
      ensures Valid() && WellFormed(board)
      ensures IsUnfinished(old(board)) && resume ==>
        board == old(board) && saved == old(saved) && currPlayer == ResumePlayer(board)
      ensures !(IsUnfinished(old(board)) && resume) ==>
        board == EmptyGrid() && saved == [] && currPlayer == old(currPlayer)
    {
      if IsUnfinished(board) && resume {
        HandleResume();
      } else {
        HandleNewGame();
      }
    }

    /** Resuming keeps the saved board and works out whose turn it is. */
    method HandleResume()
      requires Valid()
      modifies this`currPlayer
      ensures Valid()
      ensures currPlayer == ResumePlayer(board)
    {
      CheckCurrUser();
    }

    /** A new game: reset, then build the empty board. */
    method HandleNewGame()
      requires Valid()
      modifies this`board, this`saved
      ensures Valid() && board == EmptyGrid() && saved == []
    {
      ResetBoard();
      MakeBoard();
    }

    /** Whose turn it is on resume: player 2 exactly when player 1 has more
        pieces on the board. */
    method CheckCurrUser()
      requires Valid()
      modifies this`currPlayer
      ensures Valid()
      ensures currPlayer == 2 <==> Count(board, 1) > Count(board, 2)
      ensures currPlayer == ResumePlayer(board)
    {
      var cells: seq<Cell> := [];
      var i := 0;
      while i < |board|
        invariant 0 <= i <= |board|
        invariant cells == Flatten(board[..i])
      {
        assert board[..i + 1][..i] == board[..i];
        cells := cells + board[i];
        i := i + 1;
      }
      assert board[..|board|] == board;
      var player1 := Occurrences(cells, Piece(1));
      var player2 := Occurrences(cells, Piece(2));
      if player1 > player2 {
        currPlayer := 2;
      } else {
        currPlayer := 1;
      }
    }

    /** The board loses all its rows, and so does the saved copy. */
    method ResetBoard()
      requires Valid()
      modifies this`board, this`saved
      ensures Valid()
      ensures board == [] && saved == []
    {
      board := [];
      saved := [];
    }

    /** Appends HEIGHT rows of WIDTH empty cells to the reset board. */
    method MakeBoard()
      requires Valid() && board == []
      modifies this`board
      ensures Valid()
      ensures board == EmptyGrid()
    {
      var row: seq<Cell> := [];
      var y := 0;
      while y < HEIGHT
        invariant 0 <= y <= HEIGHT
        invariant board == EmptyGrid()[..y]
        invariant row == []
      {
        var x := 0;
        while x < WIDTH
          invariant 0 <= x <= WIDTH
          invariant row == seq(x, _ => Empty)
        {
          row := row + [Empty];
          x := x + 1;
        }
        board := board + [row];
        row := [];
        y := y + 1;
      }
    }

    /** The row a piece dropped into column x lands in: the greatest empty row
        of the column, or None when every cell of the column is taken. */
    method FindSpotForCol(x: int) returns (spot: Option<int>)
      requires WellFormed(board) && 0 <= x < WIDTH
      ensures spot.Some? ==> 0 <= spot.value < HEIGHT && board[spot.value][x] == Empty
      ensures spot.Some? ==> forall y :: spot.value < y < HEIGHT ==> board[y][x] != Empty
      ensures spot.None? <==> forall y :: 0 <= y < HEIGHT ==> board[y][x] != Empty
      ensures spot == Spot(board, x)
    {
      var y := HEIGHT - 1;
      while y >= 0
        invariant -1 <= y < HEIGHT
        invariant forall y' :: y < y' < HEIGHT ==> board[y'][x] != Empty
      {
        if board[y][x] == Empty {
          SpotBelowUnique(board, x, HEIGHT, Some(y));
          return Some(y);
        }
        y := y - 1;
      }
      SpotBelowUnique(board, x, HEIGHT, None);
      return None;
    }

    /** The current player's piece takes cell (y, x); no other cell changes,
        and the board is saved. */
    method PlaceInTable(y: int, x: int)
      requires Valid() && WellFormed(board) && InBounds(y, x)
      modifies this`board, this`saved
      ensures Valid()
      ensures board == Place(old(board), y, x, currPlayer) && saved == board
    {
      board := board[y := board[y][x := Piece(currPlayer)]];
      saved := board;
    }

    /** Scans every anchor cell, top row first; true exactly when the current
        player has four in a row. */
    method CheckForWin() returns (won: bool)
      requires WellFormed(board)
      ensures won <==> HasWin(board, currPlayer)
    {
      var y := 0;
      while y < HEIGHT
        invariant 0 <= y <= HEIGHT
        invariant forall y', x' :: 0 <= y' < y && 0 <= x' < WIDTH ==> !WinAt(board, currPlayer, y', x')
      {
        var x := 0;
        while x < WIDTH
          invariant 0 <= x <= WIDTH
          invariant forall y', x' :: 0 <= y' < y && 0 <= x' < WIDTH ==> !WinAt(board, currPlayer, y', x')
          invariant forall x' :: 0 <= x' < x ==> !WinAt(board, currPlayer, y, x')
        {
          var found := WinStartsAt(y, x);
          if found {
            return true;
          }
          x := x + 1;
        }
        y := y + 1;
      }
      return false;
    }

    /** One step of the scan: builds the horizontal, vertical and two diagonal
        runs from (y, x) and tests each; true exactly when one of them is four
        in a row for the current player. */
    method WinStartsAt(y: int, x: int) returns (found: bool)
      requires WellFormed(board)
      ensures found <==> WinAt(board, currPlayer, y, x)
    {
      var horiz := Run(y, x, Horizontal);
      var vert := Run(y, x, Vertical);
      var diagDR := Run(y, x, DiagonalDownRight);
      var diagDL := Run(y, x, DiagonalDownLeft);
      WinAtIffSomeRun(board, currPlayer, y, x);
      found := AllMine(board, currPlayer, horiz) || AllMine(board, currPlayer, vert)
        || AllMine(board, currPlayer, diagDR) || AllMine(board, currPlayer, diagDL);
    }

    /** Hands the turn to the other player. */
    method SwitchPlayers()
      requires Valid()
      modifies this`currPlayer
      ensures Valid()
      ensures currPlayer == Other(old(currPlayer))
    {
      if currPlayer == 1 {
        currPlayer := 2;
      } else {
        currPlayer := 1;
      }
    }

    /** The end of a game clears the board and the saved copy. */
    method EndGame()
      requires Valid()
      modifies this`board, this`saved
      ensures Valid()
      ensures board == [] && saved == []
    {
      ResetBoard();
    }

    /** A click on column x: a full column changes nothing; otherwise the
        current player's piece drops, a win is checked before a tie, either of
        them ends the game, and only a move that ends neither passes the turn. */
    method HandleClick(x: int) returns (outcome: Outcome)
      requires Valid() && WellFormed(board) && 0 <= x < WIDTH
      modifies this
      ensures Valid()
      ensures (State(board, currPlayer), outcome) == Click(State(old(board), old(currPlayer)), x)
      ensures outcome == Rejected ==> saved == old(saved)
      ensures outcome != Rejected ==> saved == board
    {
      var spot := FindSpotForCol(x);
      if spot.None? {
        return Rejected;
      }
      PlaceInTable(spot.value, x);
      var won := CheckForWin();
      if won {
        EndGame();
        return Won(currPlayer);
      }
      if IsFull(board) {
        EndGame();
        return Tied;
      }
      SwitchPlayers();
      return Ongoing;
    }
  }

  /** A page reload in the middle of a game that started from a new game,
      followed by "resume", hands the turn to the player who was due to move. */
  method ResumedPlayer(cols: seq<int>) returns (player: Player)
    requires forall i :: 0 <= i < |cols| ==> 0 <= cols[i] < WIDTH
    requires Replay(cols).Some?
    ensures player == Replay(cols).value.player
  {
    var s := Replay(cols).value;
    ReplayInvariant(cols);
    var game := new Game.Load(s.board);
    game.Start(true);
    if !IsUnfinished(s.board) {
      ResumeOnEmptyGrid(s.board);
    }
    player := game.currPlayer;
  }
}
