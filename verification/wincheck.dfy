/** Win detection: a player wins with four of their pieces in a line,
    horizontally, vertically or along either diagonal. The check looks at
    the four-cell window starting at every cell in each of the four
    directions, row by row and cell by cell. */
module WinCheck {
  import opened Grid

  /** The four ways to line up pieces, each read from its first cell. */
  datatype Direction = Horizontal | Vertical | DiagDownRight | DiagDownLeft

  /** The cell after `c` along direction `d`. */
  function Next(c: Coord, d: Direction): (n: Coord) {
    match d
    case Horizontal => (c.0, c.1 + 1)
    case Vertical => (c.0 + 1, c.1)
    case DiagDownRight => (c.0 + 1, c.1 + 1)
    case DiagDownLeft => (c.0 + 1, c.1 - 1)
  }

  /** The four coordinates of the window that starts at `c` and runs along `d`. */
  function Window(c: Coord, d: Direction): (w: seq<Coord>)
    ensures w == [c, Next(c, d), Next(Next(c, d), d), Next(Next(Next(c, d), d), d)]
  {
    var (y, x) := c;
    match d
    case Horizontal => [(y, x), (y, x + 1), (y, x + 2), (y, x + 3)]
    case Vertical => [(y, x), (y + 1, x), (y + 2, x), (y + 3, x)]
    case DiagDownLeft => [(y, x), (y + 1, x - 1), (y + 2, x - 2), (y + 3, x - 3)]
    case DiagDownRight => [(y, x), (y + 1, x + 1), (y + 2, x + 2), (y + 3, x + 3)]
  }

  /** Every coordinate in `cells` is on the board and holds a piece of `p`. */
  predicate OwnedBy(b: Board, cells: seq<Coord>, p: Player)
    requires WellFormed(b)
  {
    forall k :: 0 <= k < |cells| ==> ValidCoord(cells[k]) && At(b, cells[k]) == Piece(p)
  }

  /** Player `p` has four in a line starting at `c` along `d`. */
  predicate FourInLine(b: Board, c: Coord, d: Direction, p: Player)
    requires WellFormed(b)
  {
    OwnedBy(b, Window(c, d), p)
  }

  /** Player `p` has four in a line somewhere on the board. */
  ghost predicate HasFourOf(b: Board, p: Player)
    requires WellFormed(b)
  {
    exists c: Coord, d: Direction :: FourInLine(b, c, d, p)
  }

  /** Some player has four in a line somewhere on the board. */
  ghost predicate HasFour(b: Board)
    requires WellFormed(b)
  {
    exists p: Player :: HasFourOf(b, p)
  }

  /** The window test: takes the player at the first coordinate, which must
      be on the board, and succeeds when that cell holds a piece and every
      coordinate is on the board and holds the same piece. */
  function Win(b: Board, cells: seq<Coord>): (r: bool)
    requires WellFormed(b) && |cells| > 0 && ValidCoord(cells[0])
    ensures r <==> exists p: Player :: OwnedBy(b, cells, p)
  {
    var (y, x) := cells[0];
    var currentPlayer := b[y][x];
    AnchorDecides(b, cells);
    if currentPlayer != Empty then
      forall k :: 0 <= k < |cells| ==> ValidCoord(cells[k]) && At(b, cells[k]) == currentPlayer
    else
      false
  }

  /** Only the player at the first coordinate can own all of `cells`. */
  lemma AnchorDecides(b: Board, cells: seq<Coord>)
    requires WellFormed(b) && |cells| > 0 && ValidCoord(cells[0])
    ensures (exists p: Player :: OwnedBy(b, cells, p)) <==>
      At(b, cells[0]) != Empty && OwnedBy(b, cells, At(b, cells[0]).owner)
  {
    if exists p: Player :: OwnedBy(b, cells, p) {
      var p :| OwnedBy(b, cells, p);
      assert At(b, cells[0]) == Piece(p);
    }
  }

  /** Does a win start at `(y, x)`? The four directions in the order the
      game tries them. */
  function WinsAt(b: Board, y: int, x: int): (r: bool)
    requires WellFormed(b) && ValidCoord((y, x))
    ensures r <==> exists d: Direction, p: Player :: FourInLine(b, (y, x), d, p)
  {
    EveryDirection(b, (y, x));
    Win(b, Window((y, x), Horizontal)) || Win(b, Window((y, x), Vertical))
      || Win(b, Window((y, x), DiagDownRight)) || Win(b, Window((y, x), DiagDownLeft))
  }

  /** A four starting at `c` runs along one of the four directions. */
  lemma EveryDirection(b: Board, c: Coord)
    requires WellFormed(b)
    ensures (exists d: Direction, p: Player :: FourInLine(b, c, d, p)) <==>
      (exists p: Player :: OwnedBy(b, Window(c, Horizontal), p)) || (exists p: Player :: OwnedBy(b, Window(c, Vertical), p))
      || (exists p: Player :: OwnedBy(b, Window(c, DiagDownRight), p)) || (exists p: Player :: OwnedBy(b, Window(c, DiagDownLeft), p))
  {
    if exists p: Player :: OwnedBy(b, Window(c, Horizontal), p) {
      var p :| OwnedBy(b, Window(c, Horizontal), p);
      assert FourInLine(b, c, Horizontal, p);
    }
    if exists p: Player :: OwnedBy(b, Window(c, Vertical), p) {
      var p :| OwnedBy(b, Window(c, Vertical), p);
      assert FourInLine(b, c, Vertical, p);
    }
    if exists p: Player :: OwnedBy(b, Window(c, DiagDownRight), p) {
      var p :| OwnedBy(b, Window(c, DiagDownRight), p);
      assert FourInLine(b, c, DiagDownRight, p);
    }
    if exists p: Player :: OwnedBy(b, Window(c, DiagDownLeft), p) {
      var p :| OwnedBy(b, Window(c, DiagDownLeft), p);
      assert FourInLine(b, c, DiagDownLeft, p);
    }
    if exists d: Direction, p: Player :: FourInLine(b, c, d, p) {
      var d, p :| FourInLine(b, c, d, p);
      match d
      case Horizontal =>
      case Vertical =>
      case DiagDownRight =>
      case DiagDownLeft =>
    }
  }

  /** A four in a line starts on the board. */
  lemma FourStartsOnBoard(b: Board, c: Coord, d: Direction, p: Player)
    requires WellFormed(b) && FourInLine(b, c, d, p)
    ensures ValidCoord(c)
  {
    assert Window(c, d)[0] == c;
  }

  /** Some player has four in a line exactly when a four starts at some
      cell of the board. */
  lemma FourAtSomeCell(b: Board)
    requires WellFormed(b)
    ensures HasFour(b) <==> exists y, x :: 0 <= y < HEIGHT && 0 <= x < WIDTH && WinsAt(b, y, x)
  {
    if HasFour(b) {
      var p :| HasFourOf(b, p);
      var c: Coord, d :| FourInLine(b, c, d, p);
      FourStartsOnBoard(b, c, d, p);
      assert WinsAt(b, c.0, c.1);
    }
    if exists y, x :: 0 <= y < HEIGHT && 0 <= x < WIDTH && WinsAt(b, y, x) {
      var y, x :| 0 <= y < HEIGHT && 0 <= x < WIDTH && WinsAt(b, y, x);
      var d, p :| FourInLine(b, (y, x), d, p);
      assert HasFourOf(b, p);
    }
  }

  /** The whole-board check as a value: does a win start at some cell?
      The scan's order only decides which four is found first, never
      whether one is found. */
  function CheckForWin(b: Board): (r: bool)
    requires WellFormed(b)
    ensures r <==> HasFour(b)
  {
    FourAtSomeCell(b);
    exists y, x | 0 <= y < HEIGHT && 0 <= x < WIDTH :: WinsAt(b, y, x)
  }

  /** The whole-board check as the game runs it: rows top to bottom, cells
      left to right, stopping at the first cell where a win starts. Running
      off the end yields no win. */
  method ScanForWin(b: Board) returns (found: bool)
    requires WellFormed(b)
    ensures found <==> HasFour(b)
  {
    var y := 0;
    while y < HEIGHT
      invariant 0 <= y <= HEIGHT
      invariant forall y', x' :: 0 <= y' < y && 0 <= x' < WIDTH ==> !WinsAt(b, y', x')
    {
      var x := 0;
      while x < WIDTH
        invariant 0 <= x <= WIDTH
        invariant forall x' :: 0 <= x' < x ==> !WinsAt(b, y, x')
        invariant forall y', x' :: 0 <= y' < y && 0 <= x' < WIDTH ==> !WinsAt(b, y', x')
      {
        if WinsAt(b, y, x) {
          FourAtSomeCell(b);
          return true;
        }
        x := x + 1;
      }
      y := y + 1;
    }
    FourAtSomeCell(b);
    return false;
  }

  /** A piece dropped on an empty cell cannot break an existing four. */
  lemma {:induction false} PlaceKeepsFour(b: Board, y: int, x: int, p: Player, q: Player)
    requires WellFormed(b) && ValidCoord((y, x)) && b[y][x] == Empty
    requires HasFourOf(b, q)
    ensures HasFourOf(Place(b, y, x, p), q)
  {
    var r := Place(b, y, x, p);
    var c, d :| FourInLine(b, c, d, q);
    var w := Window(c, d);
    forall k | 0 <= k < |w|
      ensures ValidCoord(w[k]) && At(r, w[k]) == Piece(q)
    {
      assert ValidCoord(w[k]) && At(b, w[k]) == Piece(q);
    }
    assert FourInLine(r, c, d, q);
  }

  /** A piece of `p` can only create fours of `p`: any four of another
      player after the drop was already on the board before it. */
  lemma {:induction false} PlaceAddsOnlyOwnFours(b: Board, y: int, x: int, p: Player, q: Player)
    requires WellFormed(b) && ValidCoord((y, x)) && q != p
    requires HasFourOf(Place(b, y, x, p), q)
    ensures HasFourOf(b, q)
  {
    var r := Place(b, y, x, p);
    var c, d :| FourInLine(r, c, d, q);
    var w := Window(c, d);
    forall k | 0 <= k < |w|
      ensures ValidCoord(w[k]) && At(b, w[k]) == Piece(q)
    {
      assert ValidCoord(w[k]) && At(r, w[k]) == Piece(q);
    }
    assert FourInLine(b, c, d, q);
  }

  /** If the other player had no four before `p`'s drop and there is a four
      after it, then `p` has a four and the other player still has none. */
  lemma {:induction false} OnlyMoverCanWin(b: Board, y: int, x: int, p: Player)
    requires WellFormed(b) && ValidCoord((y, x)) && !HasFourOf(b, Other(p))
    requires HasFour(Place(b, y, x, p))
    ensures HasFourOf(Place(b, y, x, p), p) && !HasFourOf(Place(b, y, x, p), Other(p))
  {
    var r := Place(b, y, x, p);
    if HasFourOf(r, Other(p)) {
      PlaceAddsOnlyOwnFours(b, y, x, p, Other(p));
    }
    var q :| HasFourOf(r, q);
    assert q == p || q == Other(p) by {
      match p
      case One =>
      case Two =>
    }
  }

  /** A piece of `p` that completes the board's first four completes a four
      of `p` running through the cell it landed on. */
  lemma {:induction false} NewFourIsMovers(b: Board, y: int, x: int, p: Player)
    requires WellFormed(b) && ValidCoord((y, x))
    requires !HasFour(b) && HasFour(Place(b, y, x, p))
    ensures exists c: Coord, d: Direction :: FourInLine(Place(b, y, x, p), c, d, p) && (y, x) in Window(c, d)
  {
    var r := Place(b, y, x, p);
    var q :| HasFourOf(r, q);
    var c, d :| FourInLine(r, c, d, q);
    var w := Window(c, d);
    if (y, x) !in w {
      forall k | 0 <= k < |w|
        ensures ValidCoord(w[k]) && At(b, w[k]) == Piece(q)
      {
        assert ValidCoord(w[k]) && At(r, w[k]) == Piece(q);
      }
      assert FourInLine(b, c, d, q);
      assert HasFourOf(b, q);
      assert false;
    }
    var k :| 0 <= k < |w| && w[k] == (y, x);
    assert At(r, w[k]) == Piece(q);
    assert q == p;
  }
}
