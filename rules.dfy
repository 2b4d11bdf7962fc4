/** The rules of play on a grid value: the four-direction win scan, the player
    toggle, whose turn it is on resume, and one click of a column as a
    transition of the (grid, current player) state. */
module Rules {
  import opened Board

  // ---------------------------------------------------------------------------
  // Win detection

  /** The four orientations the scan tries from every anchor cell. */
  datatype Direction = Horizontal | Vertical | DiagonalDownRight | DiagonalDownLeft

  /** Row and column step of each orientation. */
  function Delta(d: Direction): (int, int) {
    match d
    case Horizontal => (0, 1)
    case Vertical => (1, 0)
    case DiagonalDownRight => (1, 1)
    case DiagonalDownLeft => (1, -1)
  }

  /** Four cells (row, column) starting at (y, x) and stepping by (dy, dx). */
  function Line(y: int, x: int, dy: int, dx: int): (cells: seq<(int, int)>)
    ensures |cells| == 4 && cells[0] == (y, x)
  {
    [(y, x), (y + dy, x + dx), (y + 2 * dy, x + 2 * dx), (y + 3 * dy, x + 3 * dx)]
  }

  /** The candidate run the scan builds for an anchor and an orientation. */
  function Run(y: int, x: int, d: Direction): seq<(int, int)> {
    Line(y, x, Delta(d).0, Delta(d).1)
  }

  /** The scan's test of one candidate run: every cell is a legal coordinate
      and holds a piece of p. */
  predicate AllMine(g: Grid, p: Player, cells: seq<(int, int)>)
    requires WellFormed(g)
  {
    forall i :: 0 <= i < |cells| ==>
      InBounds(cells[i].0, cells[i].1) && g[cells[i].0][cells[i].1] == Piece(p)
  }

  /** Reference definition of four in a row: both ends of the segment from
      (y, x) to (y + 3dy, x + 3dx) lie on the grid (so every cell between them
      does too), and all four of its cells hold a piece of p. */
  predicate Four(g: Grid, p: Player, y: int, x: int, dy: int, dx: int)
    requires WellFormed(g)
  {
    && InBounds(y, x) && InBounds(y + 3 * dy, x + 3 * dx)
    && g[y][x] == Piece(p)
    && g[y + dy][x + dx] == Piece(p)
    && g[y + 2 * dy][x + 2 * dx] == Piece(p)
    && g[y + 3 * dy][x + 3 * dx] == Piece(p)
  }

  /** The scan's test of a line agrees with the reference definition. */
  lemma AllMineIffFour(g: Grid, p: Player, y: int, x: int, dy: int, dx: int)
    requires WellFormed(g)
    ensures AllMine(g, p, Line(y, x, dy, dx)) <==> Four(g, p, y, x, dy, dx)
  {
    var c0, c1, c2, c3 := (y, x), (y + dy, x + dx), (y + 2 * dy, x + 2 * dx), (y + 3 * dy, x + 3 * dx);
    var cells := Line(y, x, dy, dx);
    assert cells == [c0, c1, c2, c3];
    if Four(g, p, y, x, dy, dx) {
      assert InBounds(c1.0, c1.1) && InBounds(c2.0, c2.1);
      forall i | 0 <= i < 4
        ensures InBounds(cells[i].0, cells[i].1) && g[cells[i].0][cells[i].1] == Piece(p)
      {
        if i == 0 {
          assert cells[i] == c0;
        } else if i == 1 {
          assert cells[i] == c1;
        } else if i == 2 {
          assert cells[i] == c2;
        } else {
          assert cells[i] == c3;
        }
      }
    }
    if AllMine(g, p, cells) {
      assert cells[1] == c1 && cells[2] == c2 && cells[3] == c3;
      assert InBounds(c3.0, c3.1) && g[c3.0][c3.1] == Piece(p);
      assert InBounds(c1.0, c1.1) && g[c1.0][c1.1] == Piece(p);
      assert InBounds(c2.0, c2.1) && g[c2.0][c2.1] == Piece(p);
    }
  }

  /** Some orientation from anchor (y, x) gives four in a row for p. */
  predicate WinAt(g: Grid, p: Player, y: int, x: int)
    requires WellFormed(g)
  {
    || Four(g, p, y, x, Delta(Horizontal).0, Delta(Horizontal).1)
    || Four(g, p, y, x, Delta(Vertical).0, Delta(Vertical).1)
    || Four(g, p, y, x, Delta(DiagonalDownRight).0, Delta(DiagonalDownRight).1)
    || Four(g, p, y, x, Delta(DiagonalDownLeft).0, Delta(DiagonalDownLeft).1)
  }

  /** The scan's verdict for one anchor: one of the four runs built from it
      passes the cell test. */
  lemma WinAtIffSomeRun(g: Grid, p: Player, y: int, x: int)
    requires WellFormed(g)
    ensures WinAt(g, p, y, x) <==>
      AllMine(g, p, Run(y, x, Horizontal)) || AllMine(g, p, Run(y, x, Vertical))
      || AllMine(g, p, Run(y, x, DiagonalDownRight)) || AllMine(g, p, Run(y, x, DiagonalDownLeft))
  {
    AllMineIffFour(g, p, y, x, 0, 1);
    AllMineIffFour(g, p, y, x, 1, 0);
    AllMineIffFour(g, p, y, x, 1, 1);
    AllMineIffFour(g, p, y, x, 1, -1);
  }

  /** Some anchor of the grid starts four in a row for p. */
  predicate HasWin(g: Grid, p: Player)
    requires WellFormed(g)
    ensures HasWin(g, p) ==> IsUnfinished(g)
  {
    exists y, x :: 0 <= y < HEIGHT && 0 <= x < WIDTH && WinAt(g, p, y, x)
  }

  /** A run that leaves the grid never counts: a run that passes the cell test
      is anchored where it leaves room for three more cells in its orientation. */
  lemma WinningAnchors(g: Grid, p: Player, y: int, x: int)
    requires WellFormed(g)
    ensures AllMine(g, p, Run(y, x, Horizontal)) ==> 0 <= y < HEIGHT && 0 <= x <= WIDTH - 4
    ensures AllMine(g, p, Run(y, x, Vertical)) ==> 0 <= y <= HEIGHT - 4 && 0 <= x < WIDTH
    ensures AllMine(g, p, Run(y, x, DiagonalDownRight)) ==> 0 <= y <= HEIGHT - 4 && 0 <= x <= WIDTH - 4
    ensures AllMine(g, p, Run(y, x, DiagonalDownLeft)) ==> 0 <= y <= HEIGHT - 4 && 3 <= x < WIDTH
  {
    AllMineIffFour(g, p, y, x, 0, 1);
    AllMineIffFour(g, p, y, x, 1, 0);
    AllMineIffFour(g, p, y, x, 1, 1);
    AllMineIffFour(g, p, y, x, 1, -1);
  }

  /** Four orientations from every anchor find every four in a row: the scan
      reports a win exactly when four consecutive cells along any of the eight
      compass directions hold pieces of p. */
  lemma WinIffAnyLine(g: Grid, p: Player)
    requires WellFormed(g)
    ensures HasWin(g, p) <==>
      exists y, x, dy, dx :: -1 <= dy <= 1 && -1 <= dx <= 1 && (dy != 0 || dx != 0)
        && Four(g, p, y, x, dy, dx)
  {
    if HasWin(g, p) {
      var y, x :| 0 <= y < HEIGHT && 0 <= x < WIDTH && WinAt(g, p, y, x);
    }
    if exists y, x, dy, dx :: -1 <= dy <= 1 && -1 <= dx <= 1 && (dy != 0 || dx != 0)
        && Four(g, p, y, x, dy, dx) {
      var y, x, dy, dx :| -1 <= dy <= 1 && -1 <= dx <= 1 && (dy != 0 || dx != 0)
        && Four(g, p, y, x, dy, dx);
      // A line going up, or going left along a row, is found from its other end.
      if dy < 0 || (dy == 0 && dx < 0) {
        var y0, x0 := y + 3 * dy, x + 3 * dx;
        assert Four(g, p, y0, x0, -dy, -dx);
        assert WinAt(g, p, y0, x0);
      } else {
        assert WinAt(g, p, y, x);
      }
    }
  }

  /** A win for p survives any change that keeps p's pieces in place. */
  lemma HasWinMonotone(g: Grid, g': Grid, p: Player)
    requires WellFormed(g) && WellFormed(g')
    requires forall y, x :: InBounds(y, x) && g[y][x] == Piece(p) ==> g'[y][x] == Piece(p)
    ensures HasWin(g, p) ==> HasWin(g', p)
  {
    if HasWin(g, p) {
      var y, x :| 0 <= y < HEIGHT && 0 <= x < WIDTH && WinAt(g, p, y, x);
      assert WinAt(g', p, y, x);
    }
  }

  /** Pieces are permanent, so a placement never undoes a win, and a piece of q
      never creates a win for the other player. */
  lemma PlaceAndWins(g: Grid, y: int, x: int, q: Player, p: Player)
    requires WellFormed(g) && InBounds(y, x) && g[y][x] == Empty
    ensures HasWin(g, p) ==> HasWin(Place(g, y, x, q), p)
    ensures p != q ==> (HasWin(Place(g, y, x, q), p) <==> HasWin(g, p))
  {
    var g' := Place(g, y, x, q);
    HasWinMonotone(g, g', p);
    if p != q {
      HasWinMonotone(g', g, p);
    }
  }

  /** Nobody has won on a fresh grid. */
  lemma NoWinOnEmptyGrid(p: Player)
    ensures !HasWin(EmptyGrid(), p)
  {
  }

  /** Four pieces of p stacked in one column are a win for p. */
  lemma ColumnOfFourWins(g: Grid, p: Player, y: int, x: int)
    requires WellFormed(g) && 0 <= y <= HEIGHT - 4 && 0 <= x < WIDTH
    requires g[y][x] == g[y + 1][x] == g[y + 2][x] == g[y + 3][x] == Piece(p)
    ensures HasWin(g, p)
  {
    assert WinAt(g, p, y, x);
  }

  /** Four pieces of p placed one above the other are a win for p. */
  lemma StackOfFourWins(g: Grid, p: Player, y: int, x: int)
    requires WellFormed(g) && 3 <= y < HEIGHT && 0 <= x < WIDTH
    ensures HasWin(Place(Place(Place(Place(g, y, x, p), y - 1, x, p), y - 2, x, p), y - 3, x, p), p)
  {
    var g1 := Place(g, y, x, p);
    var g2 := Place(g1, y - 1, x, p);
    var g3 := Place(g2, y - 2, x, p);
    var g4 := Place(g3, y - 3, x, p);
    assert g2[y][x] == Piece(p);
    assert g3[y][x] == Piece(p) && g3[y - 1][x] == Piece(p);
    assert g4[y][x] == Piece(p) && g4[y - 1][x] == Piece(p) && g4[y - 2][x] == Piece(p);
    ColumnOfFourWins(g4, p, y - 3, x);
  }

  /** Four pieces of p dropped one after another into a column that has room for
      them form a vertical four-in-a-row. */
  lemma FourDropsWinVertically(g: Grid, x: int, p: Player)
    requires WellFormed(g) && Stacked(g) && 0 <= x < WIDTH
    requires Spot(g, x).Some? && Spot(g, x).value >= 3
    ensures var g1 := Drop(g, x, p);
      Spot(g1, x).Some? &&
      var g2 := Drop(g1, x, p);
      Spot(g2, x).Some? &&
      var g3 := Drop(g2, x, p);
      Spot(g3, x).Some? &&
      HasWin(Drop(g3, x, p), p)
  {
    var y := Spot(g, x).value;
    DropFillsBottomUp(g, x, p);
    var g1 := Drop(g, x, p);
    assert g1 == Place(g, y, x, p);
    DropFillsBottomUp(g1, x, p);
    var g2 := Drop(g1, x, p);
    assert g2 == Place(g1, y - 1, x, p);
    DropFillsBottomUp(g2, x, p);
    var g3 := Drop(g2, x, p);
    assert g3 == Place(g2, y - 2, x, p);
    var g4 := Drop(g3, x, p);
    assert g4 == Place(g3, y - 3, x, p);
    StackOfFourWins(g, p, y, x);
  }

  // ---------------------------------------------------------------------------
  // Turns

  /** The player toggle 1 <-> 2. */
  function Other(p: Player): (q: Player)
    ensures q != p
  {
    if p == 1 then 2 else 1
  }

  lemma OtherInvolution(p: Player)
    ensures Other(Other(p)) == p
  {
  }

  /** Whose turn it is when a saved grid is resumed: player 2 exactly when
      player 1 has more pieces on the grid. */
  function ResumePlayer(g: Grid): Player {
    if Count(g, 1) > Count(g, 2) then 2 else 1
  }

  /** The counts that strict alternation starting with player 1 leaves when it
      is p's turn: equal counts before player 1 moves, one more piece of
      player 1 before player 2 moves. */
  predicate Balanced(g: Grid, p: Player) {
    Count(g, 1) == Count(g, 2) + (if p == 2 then 1 else 0)
  }

  /** On a grid with no pieces it is player 1's turn. */
  lemma ResumeOnEmptyGrid(g: Grid)
    requires !IsUnfinished(g)
    ensures ResumePlayer(g) == 1
  {
    UnfinishedIffCounted(g);
  }

  /** On balanced counts the resumed turn is the player due to move. */
  lemma ResumeOnBalanced(g: Grid, p: Player)
    requires Balanced(g, p)
    ensures ResumePlayer(g) == p
  {
  }

  // ---------------------------------------------------------------------------
  // One click of a column

  /** How a click ends: a full column is refused, otherwise the placed piece
      wins, ties or hands the turn over. */
  datatype Outcome = Rejected | Won(winner: Player) | Tied | Ongoing

  /** The engine's state: the grid and the player whose turn it is. */
  datatype State = State(board: Grid, player: Player)

  /** The state after clicking column x, and how the click ended. A finished
      game leaves the board emptied to no rows at all. */
  function Click(s: State, x: int): (r: (State, Outcome))
    requires WellFormed(s.board) && 0 <= x < WIDTH
    ensures r.1 == Rejected || r.1 == Ongoing ==> WellFormed(r.0.board)
  {
    match Spot(s.board, x)
    case None => (s, Rejected)
    case Some(y) =>
      var g := Place(s.board, y, x, s.player);
      if HasWin(g, s.player) then (State([], s.player), Won(s.player))
      else if IsFull(g) then (State([], s.player), Tied)
      else (State(g, Other(s.player)), Ongoing)
  }

  /** What a click does, case by case. */
  lemma ClickCases(s: State, x: int)
    requires WellFormed(s.board) && 0 <= x < WIDTH
    // A full column is a no-op.
    ensures Click(s, x).1 == Rejected <==> forall y :: 0 <= y < HEIGHT ==> s.board[y][x] != Empty
    ensures Click(s, x).1 == Rejected ==> Click(s, x).0 == s
    // Otherwise the piece lands at the gravity spot; a win is tested before a tie.
    ensures Spot(s.board, x).Some? ==>
      var g := Drop(s.board, x, s.player);
      && (Click(s, x).1 == Won(s.player) <==> HasWin(g, s.player))
      && (Click(s, x).1 == Tied <==> !HasWin(g, s.player) && IsFull(g))
      && (Click(s, x).1 == Ongoing <==> !HasWin(g, s.player) && !IsFull(g))
      && (Click(s, x).1 == Ongoing ==> Click(s, x).0.board == g)
    // Only the mover can win, and the board is cleared when the game ends.
    ensures Click(s, x).1.Won? ==> Click(s, x).1.winner == s.player
    ensures Click(s, x).1.Won? || Click(s, x).1 == Tied ==> Click(s, x).0.board == []
    // The turn passes exactly when the game goes on.
    ensures Click(s, x).0.player != s.player <==> Click(s, x).1 == Ongoing
  {
  }

  /** A click that does not end the game keeps the counts in step with the
      turn. */
  lemma ClickKeepsBalance(s: State, x: int)
    requires WellFormed(s.board) && 0 <= x < WIDTH && Balanced(s.board, s.player)
    requires Click(s, x).1 == Ongoing || Click(s, x).1 == Rejected
    ensures Balanced(Click(s, x).0.board, Click(s, x).0.player)
  {
    if Click(s, x).1 == Ongoing {
      var y := Spot(s.board, x).value;
      CountPlace(s.board, y, x, s.player, 1);
      CountPlace(s.board, y, x, s.player, 2);
    }
  }

  /** A position of a game in progress: pieces rest on one another, neither
      player has four in a row, the board is not full, and the counts are in
      step with the turn. */
  predicate InPlay(s: State) {
    && WellFormed(s.board)
    && Stacked(s.board)
    && !HasWin(s.board, 1) && !HasWin(s.board, 2)
    && !IsFull(s.board)
    && Balanced(s.board, s.player)
  }

  /** A click that does not end the game leads from a position in play to a
      position in play. */
  lemma ClickKeepsInPlay(s: State, x: int)
    requires InPlay(s) && 0 <= x < WIDTH
    requires Click(s, x).1 == Ongoing || Click(s, x).1 == Rejected
    ensures InPlay(Click(s, x).0)
  {
    ClickKeepsBalance(s, x);
    var s' := Click(s, x).0;
    if Click(s, x).1 == Ongoing {
      var p, q := s.player, Other(s.player);
      var y := Spot(s.board, x).value;
      var g := Place(s.board, y, x, p);
      assert s' == State(g, q) && !HasWin(g, p) && !IsFull(g);
      DropFillsBottomUp(s.board, x, p);
      assert Stacked(g);
      PlaceAndWins(s.board, y, x, p, q);
      assert !HasWin(g, q);
      assert !HasWin(g, 1) && !HasWin(g, 2) by {
        if p == 2 { assert q == 1; } else { assert q == 2; }
      }
      assert Balanced(g, q);
    } else {
      assert s' == s;
    }
  }

  /** The state reached by clicking the columns of `cols` in order from a new
      game, or None once a click ends the game. */
  function Replay(cols: seq<int>): (r: Option<State>)
    requires forall i :: 0 <= i < |cols| ==> 0 <= cols[i] < WIDTH
    ensures r.Some? ==> WellFormed(r.value.board)
  {
    if cols == [] then Some(State(EmptyGrid(), 1))
    else match Replay(cols[..|cols| - 1])
      case None => None
      case Some(s) =>
        var (s', o) := Click(s, cols[|cols| - 1]);
        if o == Ongoing || o == Rejected then Some(s') else None
  }

  /** Every position of a game in progress that started from a new game is in
      play: in particular player 1 has as many pieces as player 2 or one more,
      and the turn read back from the counts is the player to move. */
  lemma {:induction false} ReplayInvariant(cols: seq<int>)
    requires forall i :: 0 <= i < |cols| ==> 0 <= cols[i] < WIDTH
    requires Replay(cols).Some?
    ensures InPlay(Replay(cols).value)
    ensures var s := Replay(cols).value;
      0 <= Count(s.board, 1) - Count(s.board, 2) <= 1 && ResumePlayer(s.board) == s.player
  {
    if cols == [] {
      EmptyGridStatus();
      NoWinOnEmptyGrid(1);
      NoWinOnEmptyGrid(2);
      CountEmptyGrid();
    } else {
      var front := cols[..|cols| - 1];
      ReplayInvariant(front);
      ClickKeepsInPlay(Replay(front).value, cols[|cols| - 1]);
    }
    var s := Replay(cols).value;
    ResumeOnBalanced(s.board, s.player);
  }

  lemma CountEmptyGrid()
    ensures Count(EmptyGrid(), 1) == 0 && Count(EmptyGrid(), 2) == 0
  {
    EmptyGridStatus();
    UnfinishedIffCounted(EmptyGrid());
  }
}
