/** The Connect Four board: a fixed HEIGHT x WIDTH grid of cells stored as
    rows, `b[y][x]`, with row 0 at the top and row HEIGHT - 1 at the bottom.
    Pieces fall to the lowest empty cell of a column. */
module Grid {

  const WIDTH: int := 7
  const HEIGHT: int := 6

  /** The two players; the game stores them as the numbers 1 and 2. */
  datatype Player = One | Two

  /** A cell is empty (`null`) or holds a piece of one player. */
  datatype Cell = Empty | Piece(owner: Player)

  type Row = seq<Cell>
  type Board = seq<Row>

  /** A coordinate `(y, x)`: row first, then column. */
  type Coord = (int, int)

  datatype Option<T> = None | Some(value: T)

  /** The board has exactly HEIGHT rows of exactly WIDTH cells each. */
  predicate WellFormed(b: Board) {
    |b| == HEIGHT && forall y :: 0 <= y < HEIGHT ==> |b[y]| == WIDTH
  }

  /** Every cell of a well-formed board is empty. */
  predicate AllEmpty(b: Board) {
    WellFormed(b) && forall y, x :: 0 <= y < HEIGHT && 0 <= x < WIDTH ==> b[y][x] == Empty
  }

  /** Every cell of a well-formed board holds a piece. */
  predicate Full(b: Board) {
    WellFormed(b) && forall y, x :: 0 <= y < HEIGHT && 0 <= x < WIDTH ==> b[y][x] != Empty
  }

  /** The player whose turn follows `p`'s. */
  function Other(p: Player): (q: Player)
    ensures q != p
  {
    if p == One then Two else One
  }

  /** The bounds test on a coordinate. */
  function ValidCoord(c: Coord): (r: bool)
    ensures r <==> 0 <= c.0 < HEIGHT && 0 <= c.1 < WIDTH
  {
    var (y, x) := c;
    if x >= WIDTH || x < 0 || y >= HEIGHT || y < 0 then false else true
  }

  /** The cell at an in-bounds coordinate. */
  function At(b: Board, c: Coord): (cell: Cell)
    requires WellFormed(b) && ValidCoord(c)
  {
    b[c.0][c.1]
  }

  /** Builds the board row by row, each row cell by cell, all cells empty. */
  method MakeBoard() returns (b: Board)
    ensures WellFormed(b)
    ensures AllEmpty(b)
  {
    b := [];
    var row := 0;
    while row < HEIGHT
      invariant 0 <= row <= HEIGHT
      invariant |b| == row
      invariant forall y :: 0 <= y < row ==> |b[y]| == WIDTH
      invariant forall y, x :: 0 <= y < row && 0 <= x < WIDTH ==> b[y][x] == Empty
    {
      var currentRow: Row := [];
      var column := 0;
      while column < WIDTH
        invariant 0 <= column <= WIDTH
        invariant |currentRow| == column
        invariant forall x :: 0 <= x < column ==> currentRow[x] == Empty
      {
        currentRow := currentRow + [Empty];
        column := column + 1;
      }
      b := b + [currentRow];
      row := row + 1;
    }
  }

  /** The empty board as a value, for the states built from it. */
  function EmptyBoard(): (b: Board)
    ensures AllEmpty(b)
  {
    seq(HEIGHT, _ => seq(WIDTH, _ => Empty))
  }

  /** There is only one empty board, so every way of building one agrees. */
  lemma {:induction false} EmptyBoardUnique(a: Board, b: Board)
    requires AllEmpty(a) && AllEmpty(b)
    ensures a == b
  {
    forall y | 0 <= y < HEIGHT
      ensures a[y] == b[y]
    {
      assert forall x :: 0 <= x < WIDTH ==> a[y][x] == b[y][x];
    }
  }

  /** Scans column `x` upwards from row `y` for the first empty cell. A column
      outside the board has no empty cell. */
  function SpotFrom(b: Board, x: int, y: int): (r: Option<int>)
    requires WellFormed(b)
    requires -1 <= y < HEIGHT
    ensures r.Some? ==> 0 <= r.value <= y && 0 <= x < WIDTH && b[r.value][x] == Empty
    ensures r.Some? ==> forall y' :: r.value < y' <= y ==> b[y'][x] != Empty
    ensures r.None? <==> (0 <= x < WIDTH ==> forall y' :: 0 <= y' <= y ==> b[y'][x] != Empty)
    decreases y + 1
  {
    if y < 0 then None
    else if 0 <= x < WIDTH && b[y][x] == Empty then Some(y)
    else SpotFrom(b, x, y - 1)
  }

  /** The row a piece dropped into column `x` lands on: the lowest empty cell
      of the column, or None when the column is full or off the board. */
  function FindSpot(b: Board, x: int): (r: Option<int>)
    requires WellFormed(b)
    ensures r.Some? ==> ValidCoord((r.value, x)) && b[r.value][x] == Empty
    ensures r.Some? ==> forall y :: r.value < y < HEIGHT ==> b[y][x] != Empty
    ensures r.None? <==> (0 <= x < WIDTH ==> forall y :: 0 <= y < HEIGHT ==> b[y][x] != Empty)
  {
    SpotFrom(b, x, HEIGHT - 1)
  }

  /** The board with a piece of `p` written at `(y, x)`. */
  function Place(b: Board, y: int, x: int, p: Player): (r: Board)
    requires WellFormed(b) && ValidCoord((y, x))
    ensures WellFormed(r)
    ensures r[y][x] == Piece(p)
    ensures forall y', x' :: 0 <= y' < HEIGHT && 0 <= x' < WIDTH && (y', x') != (y, x) ==> r[y'][x'] == b[y'][x']
  {
    b[y := b[y][x := Piece(p)]]
  }

  /** Gravity: every piece above the bottom row rests on another piece. */
  predicate Gravity(b: Board)
    requires WellFormed(b)
  {
    forall y, x :: 0 <= y < HEIGHT - 1 && 0 <= x < WIDTH && b[y][x] != Empty ==> Resting(b, y, x)
  }

  /** The cell below `(y, x)` holds a piece. */
  predicate Resting(b: Board, y: int, x: int)
    requires WellFormed(b) && 0 <= y < HEIGHT - 1 && 0 <= x < WIDTH
  {
    b[y + 1][x] != Empty
  }

  /** Under gravity the pieces of a column form one block reaching the
      bottom row: a piece at row `y` has pieces in every row below it. */
  lemma {:induction false} GravityStacks(b: Board, y: int, x: int, y': int)
    requires WellFormed(b) && Gravity(b)
    requires 0 <= y <= y' < HEIGHT && 0 <= x < WIDTH
    requires b[y][x] != Empty
    ensures b[y'][x] != Empty
    decreases y' - y
  {
    if y < y' {
      assert Resting(b, y, x);
      GravityStacks(b, y + 1, x, y');
    }
  }

  /** Dropping into the spot FindSpot returns keeps gravity. */
  lemma {:induction false} PlaceKeepsGravity(b: Board, x: int, p: Player)
    requires WellFormed(b) && Gravity(b)
    requires FindSpot(b, x).Some?
    ensures Gravity(Place(b, FindSpot(b, x).value, x, p))
  {
    var y := FindSpot(b, x).value;
    var r := Place(b, y, x, p);
    forall y', x' | 0 <= y' < HEIGHT - 1 && 0 <= x' < WIDTH && r[y'][x'] != Empty
      ensures Resting(r, y', x')
    {
      if x' == x && y' == y {
        assert r[y' + 1][x'] == b[y + 1][x];
      } else {
        // an old piece rests on an old piece, which the drop cannot cover
        assert r[y'][x'] == b[y'][x'];
        assert Resting(b, y', x');
      }
    }
  }

  /** Repeated drops into one column stack upwards: after a piece lands on
      row `y`, the next one lands on row `y - 1`, and after row 0 is taken
      the column is full. The first drop into an empty column lands on the
      bottom row. */
  lemma {:induction false} DropStacksUp(b: Board, x: int, p: Player)
    requires WellFormed(b) && Gravity(b)
    requires FindSpot(b, x).Some?
    ensures var y := FindSpot(b, x).value;
      FindSpot(Place(b, y, x, p), x) == if y == 0 then None else Some(y - 1)
    ensures AllEmpty(b) ==> FindSpot(b, x) == Some(HEIGHT - 1)
  {
    var y := FindSpot(b, x).value;
    var r := Place(b, y, x, p);
    assert forall y' :: y <= y' < HEIGHT ==> r[y'][x] != Empty;
    if 0 < y {
      assert r[y - 1][x] == Empty;
    }
  }

  /** The bounds test accepts exactly the coordinates that index a cell of
      the board. */
  lemma ValidCoordIsIndex(b: Board, c: Coord)
    requires WellFormed(b)
    ensures ValidCoord(c) <==> 0 <= c.0 < |b| && 0 <= c.1 < |b[c.0]|
  {
  }

  /** The number of pieces in a row. */
  function CountRow(row: Row): (n: nat)
    ensures n <= |row|
  {
    if |row| == 0 then 0
    else (if row[0] != Empty then 1 else 0) + CountRow(row[1..])
  }

  /** A row holds as many pieces as it has cells exactly when no cell of
      it is empty. */
  lemma {:induction false} CountRowFull(row: Row)
    ensures CountRow(row) == |row| <==> forall i :: 0 <= i < |row| ==> row[i] != Empty
    decreases |row|
  {
    if |row| > 0 {
      CountRowFull(row[1..]);
      assert forall i :: 1 <= i < |row| ==> row[i] == row[1..][i - 1];
    }
  }

  /** The number of pieces on the board. */
  function CountFilled(b: Board): (n: nat) {
    if |b| == 0 then 0 else CountRow(b[0]) + CountFilled(b[1..])
  }

  /** Filling one empty cell of a row adds one piece to it. */
  lemma {:induction false} CountRowFill(row: Row, x: int, c: Cell)
    requires 0 <= x < |row| && row[x] == Empty && c != Empty
    ensures CountRow(row[x := c]) == CountRow(row) + 1
    decreases |row|
  {
    if x > 0 {
      assert row[x := c][1..] == row[1..][x - 1 := c];
      CountRowFill(row[1..], x - 1, c);
    } else {
      assert row[x := c][1..] == row[1..];
    }
  }

  /** Replacing a row of the board changes the count by the rows' difference. */
  lemma {:induction false} CountFilledRow(b: Board, y: int, row: Row)
    requires 0 <= y < |b|
    ensures CountFilled(b[y := row]) + CountRow(b[y]) == CountFilled(b) + CountRow(row)
    decreases |b|
  {
    if y > 0 {
      assert b[y := row][1..] == b[1..][y - 1 := row];
      CountFilledRow(b[1..], y - 1, row);
    } else {
      assert b[y := row][1..] == b[1..];
    }
  }

  /** Placing a piece on an empty cell adds exactly one piece to the board. */
  lemma PlaceCount(b: Board, y: int, x: int, p: Player)
    requires WellFormed(b) && ValidCoord((y, x)) && b[y][x] == Empty
    ensures CountFilled(Place(b, y, x, p)) == CountFilled(b) + 1
  {
    CountRowFill(b[y], x, Piece(p));
    CountFilledRow(b, y, b[y][x := Piece(p)]);
  }
}
