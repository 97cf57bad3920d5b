/** The turn logic of the game: a click on a column drops the current
    player's piece, announces a win or a tie, and otherwise hands the turn
    to the other player. A finished game is not locked: later clicks are
    still played. */
module Game {
  import opened Grid
  import opened WinCheck

  /** The game state: the board and the player whose turn it is. */
  datatype State = State(board: Board, currPlayer: Player)

  /** What a click led to: nothing (full or unknown column), an ordinary
      move, a win announced for a player, or a tie announced. */
  datatype Outcome = Ignored | Continued | Won(winner: Player) | Tied

  /** The state after a click together with what was announced. */
  datatype Move = Move(next: State, outcome: Outcome)

  /** The state the game starts in: an empty board, player 1 to move. */
  function Initial(): (s: State)
    ensures AllEmpty(s.board) && s.currPlayer == One
  {
    State(EmptyBoard(), One)
  }

  /** The tie test: every cell of the top row holds a piece, that is, the
      top row holds WIDTH pieces. */
  function TopRowFull(b: Board): (r: bool)
    requires WellFormed(b)
    ensures r <==> CountRow(b[0]) == WIDTH
  {
    CountRowFull(b[0]);
    forall x :: 0 <= x < WIDTH ==> b[0][x] != Empty
  }

  /** Under gravity, the top row is full exactly when the whole board is. */
  lemma {:induction false} TieMeansFull(b: Board)
    requires WellFormed(b) && Gravity(b)
    ensures TopRowFull(b) <==> Full(b)
  {
    if TopRowFull(b) {
      forall y, x | 0 <= y < HEIGHT && 0 <= x < WIDTH
        ensures b[y][x] != Empty
      {
        GravityStacks(b, 0, x, y);
      }
    }
  }

  /** A click on column `x`: drops a piece of the current player at the
      lowest empty cell, then tests for a win, then for a tie, and only when
      neither happened passes the turn. A full column, or a column off the
      board, changes nothing. */
  function Step(s: State, x: int): (m: Move)
    requires WellFormed(s.board)
    ensures WellFormed(m.next.board)
    ensures m.outcome == Ignored <==> FindSpot(s.board, x).None?
    ensures m.outcome == Ignored ==> m.next == s
    ensures m.outcome != Ignored ==> m.next.board == Place(s.board, FindSpot(s.board, x).value, x, s.currPlayer)
    ensures m.outcome.Won? ==> m.outcome.winner == s.currPlayer && HasFour(m.next.board)
    ensures m.outcome == Tied ==> !HasFour(m.next.board) && TopRowFull(m.next.board)
    ensures m.outcome == Continued ==> !HasFour(m.next.board) && !TopRowFull(m.next.board)
    ensures m.next.currPlayer == if m.outcome == Continued then Other(s.currPlayer) else s.currPlayer
  {
    match FindSpot(s.board, x)
    case None => Move(s, Ignored)
    case Some(y) =>
      var b := Place(s.board, y, x, s.currPlayer);
      if CheckForWin(b) then Move(State(b, s.currPlayer), Won(s.currPlayer))
      else if TopRowFull(b) then Move(State(b, s.currPlayer), Tied)
      else Move(State(b, Other(s.currPlayer)), Continued)
  }

  /** The reset button: empties every cell and keeps whoever's turn it was. */
  function Reset(s: State): (r: State)
    ensures AllEmpty(r.board)
    ensures r.currPlayer == s.currPlayer
  {
    State(EmptyBoard(), s.currPlayer)
  }

  /** A state the game can be in: a well-formed board obeying gravity on
      which the player not to move has no four. */
  ghost predicate Consistent(s: State) {
    WellFormed(s.board) && Gravity(s.board) && !HasFourOf(s.board, Other(s.currPlayer))
  }

  /** An empty board has no four. */
  lemma EmptyHasNoFour(b: Board, p: Player)
    requires AllEmpty(b)
    ensures !HasFourOf(b, p)
  {
    forall c: Coord, d: Direction
      ensures !FourInLine(b, c, d, p)
    {
      assert Window(c, d)[0] == c;
    }
  }

  /** The game starts consistent and a reset keeps it consistent. */
  lemma {:induction false} ResetConsistent(s: State)
    ensures Consistent(Initial())
    ensures Consistent(Reset(s))
  {
    EmptyHasNoFour(Initial().board, Other(One));
    EmptyHasNoFour(Reset(s).board, Other(s.currPlayer));
  }

  /** Every click keeps pieces resting on pieces or on the bottom row. */
  lemma {:induction false} StepKeepsGravity(s: State, x: int)
    requires WellFormed(s.board) && Gravity(s.board)
    ensures Gravity(Step(s, x).next.board)
  {
    if FindSpot(s.board, x).Some? {
      PlaceKeepsGravity(s.board, x, s.currPlayer);
    }
  }

  /** Every click keeps the player not to move without a four. */
  lemma {:induction false} StepKeepsWaitingPlayerFourless(s: State, x: int)
    requires WellFormed(s.board) && !HasFourOf(s.board, Other(s.currPlayer))
    ensures !HasFourOf(Step(s, x).next.board, Other(Step(s, x).next.currPlayer))
  {
    var m := Step(s, x);
    match FindSpot(s.board, x)
    case None =>
    case Some(y) =>
      var b := Place(s.board, y, x, s.currPlayer);
      if m.outcome != Continued {
        if HasFourOf(b, Other(s.currPlayer)) {
          PlaceAddsOnlyOwnFours(s.board, y, x, s.currPlayer, Other(s.currPlayer));
        }
      } else {
        assert !HasFour(b);
      }
  }

  /** Every click keeps the state consistent. */
  lemma {:induction false} StepConsistent(s: State, x: int)
    requires Consistent(s)
    ensures Consistent(Step(s, x).next)
  {
    StepKeepsGravity(s, x);
    StepKeepsWaitingPlayerFourless(s, x);
  }

  /** A click into a column with room adds exactly one piece; an ignored
      click adds none. */
  lemma {:induction false} StepCount(s: State, x: int)
    requires WellFormed(s.board)
    ensures CountFilled(Step(s, x).next.board) == CountFilled(s.board) + if Step(s, x).outcome == Ignored then 0 else 1
  {
    match FindSpot(s.board, x)
    case None =>
    case Some(y) => PlaceCount(s.board, y, x, s.currPlayer);
  }

  /** When the player waiting for their turn has no four (as in every
      consistent state), the player announced as winner has four in a line
      and the other player has none. */
  lemma {:induction false} WinnerHoldsFour(s: State, x: int)
    requires WellFormed(s.board) && !HasFourOf(s.board, Other(s.currPlayer))
    ensures Step(s, x).outcome.Won? ==>
      HasFourOf(Step(s, x).next.board, s.currPlayer) && !HasFourOf(Step(s, x).next.board, Other(s.currPlayer))
  {
    if Step(s, x).outcome.Won? {
      OnlyMoverCanWin(s.board, FindSpot(s.board, x).value, x, s.currPlayer);
    }
  }

  /** From a consistent state, a tie is announced only on a full board
      with no four on it. */
  lemma {:induction false} TieOnFullBoard(s: State, x: int)
    requires Consistent(s)
    ensures Step(s, x).outcome == Tied ==> Full(Step(s, x).next.board) && !HasFour(Step(s, x).next.board)
  {
    StepConsistent(s, x);
    TieMeansFull(Step(s, x).next.board);
  }

  /** Once some player has four in a line, a click never passes the turn:
      the game keeps announcing the win and the same player keeps moving,
      until the board is reset. */
  lemma {:induction false} WinIsSticky(s: State, x: int)
    requires WellFormed(s.board) && HasFour(s.board)
    ensures Step(s, x).next.currPlayer == s.currPlayer
    ensures Step(s, x).outcome == Ignored || Step(s, x).outcome == Won(s.currPlayer)
  {
    match FindSpot(s.board, x)
    case None =>
    case Some(y) =>
      var q :| HasFourOf(s.board, q);
      PlaceKeepsFour(s.board, y, x, s.currPlayer, q);
      assert HasFour(Place(s.board, y, x, s.currPlayer));
  }

  /** The first four of a game is completed by the piece just dropped, and
      it belongs to the player who dropped it. */
  lemma {:induction false} FirstWinRunsThroughDrop(s: State, x: int)
    requires WellFormed(s.board) && !HasFour(s.board)
    ensures Step(s, x).outcome.Won? ==> exists c: Coord, d: Direction ::
      FourInLine(Step(s, x).next.board, c, d, s.currPlayer) && (FindSpot(s.board, x).value, x) in Window(c, d)
  {
    if Step(s, x).outcome.Won? {
      NewFourIsMovers(s.board, FindSpot(s.board, x).value, x, s.currPlayer);
    }
  }

  /** The state after a run of clicks, one column index per click, with no
      reset in between. */
  function Play(s: State, xs: seq<int>): (r: State)
    requires WellFormed(s.board)
    ensures WellFormed(r.board)
    ensures CountFilled(s.board) <= CountFilled(r.board) <= CountFilled(s.board) + |xs|
    decreases |xs|
  {
    if |xs| == 0 then s
    else
      StepCount(s, xs[0]);
      Play(Step(s, xs[0]).next, xs[1..])
  }

  /** Once some player has four in a line, no run of clicks passes the turn
      again; only a reset clears the four. */
  lemma {:induction false} WinIsStickyForever(s: State, xs: seq<int>)
    requires WellFormed(s.board) && HasFour(s.board)
    ensures Play(s, xs).currPlayer == s.currPlayer
    ensures HasFour(Play(s, xs).board)
    decreases |xs|
  {
    if |xs| > 0 {
      var m := Step(s, xs[0]);
      WinIsSticky(s, xs[0]);
      assert HasFour(m.next.board);
      WinIsStickyForever(m.next, xs[1..]);
    }
  }
}
