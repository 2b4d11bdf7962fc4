/** The Connect Four board as a value: cells, the fixed-size grid, the gravity
    rule, the tie and "game in progress" tests, and the piece counts that the
    resume logic relies on. */
module Board {

  /** Number of columns and rows of the grid. */
  const WIDTH: int := 7
  const HEIGHT: int := 6

  /** The two player markers, 1 and 2. */
  type Player = p: int | p == 1 || p == 2 witness 1

  /** A cell is empty (`null` in the game) or holds a piece of one player. */
  datatype Cell = Empty | Piece(owner: Player)

  datatype Option<T> = None | Some(value: T)

  /** Row-major grid: `g[y][x]` is the cell in row y (0 is the top) and column x. */
  type Grid = seq<seq<Cell>>

  /** HEIGHT rows of WIDTH cells each. */
  predicate WellFormed(g: Grid) {
    |g| == HEIGHT && forall y :: 0 <= y < HEIGHT ==> |g[y]| == WIDTH
  }

  predicate InBounds(y: int, x: int) {
    0 <= y < HEIGHT && 0 <= x < WIDTH
  }

  /** The grid a new game starts from: every cell empty. */
  function EmptyGrid(): (g: Grid)
    ensures WellFormed(g)
    ensures forall y, x :: InBounds(y, x) ==> g[y][x] == Empty
  {
    seq(HEIGHT, _ => seq(WIDTH, _ => Empty))
  }

  /** Gravity invariant: a piece always rests on another piece or on the bottom row. */
  predicate Stacked(g: Grid)
    requires WellFormed(g)
  {
    forall y1, y2, x :: 0 <= y1 <= y2 < HEIGHT && 0 <= x < WIDTH && g[y1][x] != Empty ==> g[y2][x] != Empty
  }

  // ---------------------------------------------------------------------------
  // Gravity drop

  /** The descending scan over rows n-1 down to 0 of column x: the first empty
      row met, which is the greatest empty row below n. */
  function SpotBelow(g: Grid, x: int, n: int): (r: Option<int>)
    requires WellFormed(g) && 0 <= x < WIDTH && 0 <= n <= HEIGHT
    ensures r.Some? ==> 0 <= r.value < n && g[r.value][x] == Empty
    ensures r.Some? ==> forall y :: r.value < y < n ==> g[y][x] != Empty
    ensures r.None? <==> forall y :: 0 <= y < n ==> g[y][x] != Empty
    decreases n
  {
    if n == 0 then None
    else if g[n - 1][x] == Empty then Some(n - 1)
    else SpotBelow(g, x, n - 1)
  }

  /** The row a piece dropped into column x comes to rest in, or None when the
      column is full. */
  function Spot(g: Grid, x: int): (r: Option<int>)
    requires WellFormed(g) && 0 <= x < WIDTH
    ensures r.Some? ==> 0 <= r.value < HEIGHT && g[r.value][x] == Empty
    ensures r.Some? ==> forall y :: r.value < y < HEIGHT ==> g[y][x] != Empty
    ensures r.None? <==> forall y :: 0 <= y < HEIGHT ==> g[y][x] != Empty
  {
    SpotBelow(g, x, HEIGHT)
  }

  /** The scan result is determined by what it promises. */
  lemma SpotBelowUnique(g: Grid, x: int, n: int, r: Option<int>)
    requires WellFormed(g) && 0 <= x < WIDTH && 0 <= n <= HEIGHT
    requires r.Some? ==> 0 <= r.value < n && g[r.value][x] == Empty
    requires r.Some? ==> forall y :: r.value < y < n ==> g[y][x] != Empty
    requires r.None? ==> forall y :: 0 <= y < n ==> g[y][x] != Empty
    ensures SpotBelow(g, x, n) == r
  {
  }

  /** The grid with the cell at (y, x) taken by player p. */
  function Place(g: Grid, y: int, x: int, p: Player): (r: Grid)
    requires WellFormed(g) && InBounds(y, x)
    ensures WellFormed(r)
    ensures r[y][x] == Piece(p)
    ensures forall y', x' :: InBounds(y', x') && (y', x') != (y, x) ==> r[y'][x'] == g[y'][x']
  {
    g[y := g[y][x := Piece(p)]]
  }

  /** Dropping a piece of player p into a column that is not full. */
  function Drop(g: Grid, x: int, p: Player): (r: Grid)
    requires WellFormed(g) && 0 <= x < WIDTH && Spot(g, x).Some?
    ensures WellFormed(r)
    ensures r[Spot(g, x).value][x] == Piece(p)
    ensures forall y :: 0 <= y < HEIGHT ==>
      (r[y][x] != Empty <==> g[y][x] != Empty || y == Spot(g, x).value)
    ensures forall y, x' :: InBounds(y, x') && (y, x') != (Spot(g, x).value, x) ==> r[y][x'] == g[y][x']
  {
    Place(g, Spot(g, x).value, x, p)
  }

  /** After a drop into column x, the next drop into x lands in the first empty
      row above the piece just placed, and every other column is unaffected. */
  lemma SpotAfterDrop(g: Grid, x: int, p: Player, x': int)
    requires WellFormed(g) && 0 <= x < WIDTH && 0 <= x' < WIDTH && Spot(g, x).Some?
    ensures Spot(Drop(g, x, p), x') == if x' == x then SpotBelow(g, x, Spot(g, x).value) else Spot(g, x')
  {
  }

  /** On a stacked grid the columns fill bottom-up: a drop keeps the grid
      stacked, and the next drop into the same column lands one row higher,
      until the top row is taken. */
  lemma DropFillsBottomUp(g: Grid, x: int, p: Player)
    requires WellFormed(g) && Stacked(g) && 0 <= x < WIDTH && Spot(g, x).Some?
    ensures Stacked(Drop(g, x, p))
    ensures var y := Spot(g, x).value;
      Spot(Drop(g, x, p), x) == if y == 0 then None else Some(y - 1)
  {
  }

  // ---------------------------------------------------------------------------
  // Tie and "game in progress" tests

  /** Every cell of every row holds a piece. */
  predicate IsFull(g: Grid) {
    forall y, x :: 0 <= y < |g| && 0 <= x < |g[y]| ==> g[y][x] != Empty
  }

  /** Some cell of some row holds a piece. */
  predicate IsUnfinished(g: Grid) {
    exists y, x :: 0 <= y < |g| && 0 <= x < |g[y]| && g[y][x] != Empty
  }

  /** The board is full exactly when no column has room for another piece. */
  lemma FullIffNoRoom(g: Grid)
    requires WellFormed(g)
    ensures IsFull(g) <==> forall x :: 0 <= x < WIDTH ==> Spot(g, x).None?
  {
    if !IsFull(g) {
      var y, x :| 0 <= y < |g| && 0 <= x < |g[y]| && g[y][x] == Empty;
      assert Spot(g, x).Some?;
    }
  }

  /** A fresh grid is neither full nor in progress. */
  lemma EmptyGridStatus()
    ensures !IsFull(EmptyGrid()) && !IsUnfinished(EmptyGrid()) && Stacked(EmptyGrid())
  {
    assert EmptyGrid()[0][0] == Empty;
  }

  // ---------------------------------------------------------------------------
  // Counting pieces

  /** All rows of the grid concatenated, top row first; rows of WIDTH cells
      give WIDTH entries per row. */
  function Flatten(g: Grid): (r: seq<Cell>)
    ensures (forall y :: 0 <= y < |g| ==> |g[y]| == WIDTH) ==> |r| == |g| * WIDTH
  {
    if g == [] then [] else Flatten(g[..|g| - 1]) + g[|g| - 1]
  }

  /** How many entries of s equal c. */
  function Occurrences(s: seq<Cell>, c: Cell): (r: nat)
    ensures r <= |s|
    ensures r > 0 <==> c in s
  {
    if s == [] then 0
    else Occurrences(s[..|s| - 1], c) + (if s[|s| - 1] == c then 1 else 0)
  }

  /** The number of pieces of player p on the grid. */
  function Count(g: Grid, p: Player): (r: nat)
    ensures WellFormed(g) ==> r <= HEIGHT * WIDTH
  {
    Occurrences(Flatten(g), Piece(p))
  }

  lemma {:induction false} OccurrencesConcat(a: seq<Cell>, b: seq<Cell>, c: Cell)
    ensures Occurrences(a + b, c) == Occurrences(a, c) + Occurrences(b, c)
    decreases |b|
  {
    if b == [] {
      assert a + b == a;
    } else {
      assert (a + b)[..|a + b| - 1] == a + b[..|b| - 1];
      OccurrencesConcat(a, b[..|b| - 1], c);
    }
  }

  lemma {:induction false} FlattenConcat(a: Grid, b: Grid)
    ensures Flatten(a + b) == Flatten(a) + Flatten(b)
    decreases |b|
  {
    if b == [] {
      assert a + b == a;
    } else {
      assert (a + b)[..|a + b| - 1] == a + b[..|b| - 1];
      FlattenConcat(a, b[..|b| - 1]);
    }
  }

  lemma OccurrencesSingle(e: Cell, c: Cell)
    ensures Occurrences([e], c) == if e == c then 1 else 0
  {
  }

  lemma OccurrencesUpdate(s: seq<Cell>, i: int, d: Cell, c: Cell)
    requires 0 <= i < |s|
    ensures Occurrences(s[i := d], c)
         == Occurrences(s, c) - (if s[i] == c then 1 else 0) + (if d == c then 1 else 0)
  {
    assert s == s[..i] + [s[i]] + s[i + 1..];
    assert s[i := d] == s[..i] + [d] + s[i + 1..];
    OccurrencesConcat(s[..i] + [s[i]], s[i + 1..], c);
    OccurrencesConcat(s[..i], [s[i]], c);
    OccurrencesConcat(s[..i] + [d], s[i + 1..], c);
    OccurrencesConcat(s[..i], [d], c);
    OccurrencesSingle(s[i], c);
    OccurrencesSingle(d, c);
  }

  /** Placing a piece of p on an empty cell adds one to p's count and leaves
      the other player's count alone. */
  lemma CountPlace(g: Grid, y: int, x: int, p: Player, q: Player)
    requires WellFormed(g) && InBounds(y, x) && g[y][x] == Empty
    ensures Count(Place(g, y, x, p), q) == Count(g, q) + (if q == p then 1 else 0)
  {
    var g' := Place(g, y, x, p);
    var row := g[y][x := Piece(p)];
    assert g == g[..y] + [g[y]] + g[y + 1..];
    assert g' == g[..y] + [row] + g[y + 1..];
    assert Flatten([g[y]]) == g[y] by { assert [g[y]][..0] == []; }
    assert Flatten([row]) == row by { assert [row][..0] == []; }
    FlattenConcat(g[..y] + [g[y]], g[y + 1..]);
    FlattenConcat(g[..y], [g[y]]);
    FlattenConcat(g[..y] + [row], g[y + 1..]);
    FlattenConcat(g[..y], [row]);
    var top, bottom := Flatten(g[..y]), Flatten(g[y + 1..]);
    OccurrencesConcat(top + g[y], bottom, Piece(q));
    OccurrencesConcat(top, g[y], Piece(q));
    OccurrencesConcat(top + row, bottom, Piece(q));
    OccurrencesConcat(top, row, Piece(q));
    OccurrencesUpdate(g[y], x, Piece(p), Piece(q));
  }

  /** A cell value appears in the flattened grid exactly when some cell holds it. */
  lemma {:induction false} FlattenHas(g: Grid, c: Cell)
    ensures c in Flatten(g) <==> exists y, x :: 0 <= y < |g| && 0 <= x < |g[y]| && g[y][x] == c
    decreases |g|
  {
    if g != [] {
      var n := |g| - 1;
      var front := g[..n];
      FlattenHas(front, c);
      assert Flatten(g) == Flatten(front) + g[n];
      if c in Flatten(g) {
        if c in Flatten(front) {
          var y, x :| 0 <= y < |front| && 0 <= x < |front[y]| && front[y][x] == c;
          assert g[y][x] == c;
        } else {
          var x :| 0 <= x < |g[n]| && g[n][x] == c;
        }
      }
      if exists y, x :: 0 <= y < |g| && 0 <= x < |g[y]| && g[y][x] == c {
        var y, x :| 0 <= y < |g| && 0 <= x < |g[y]| && g[y][x] == c;
        if y < n {
          assert front[y][x] == c;
        } else {
          assert g[n][x] == c;
        }
      }
    }
  }

  /** A grid is in progress exactly when the two players' counts are not both zero. */
  lemma UnfinishedIffCounted(g: Grid)
    ensures IsUnfinished(g) <==> Count(g, 1) + Count(g, 2) > 0
  {
    FlattenHas(g, Piece(1));
    FlattenHas(g, Piece(2));
    if IsUnfinished(g) {
      var y, x :| 0 <= y < |g| && 0 <= x < |g[y]| && g[y][x] != Empty;
      assert g[y][x] == Piece(1) || g[y][x] == Piece(2);
    }
  }
}
