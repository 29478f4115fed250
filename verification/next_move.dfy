/** The computer's next move and what it guarantees: it plays an open
    square, never gives away a forced win or an avoidable loss, completes a
    line when it can, and blocks the human's only threat. */
module NextMove {
  import opened BoardModel
  import opened MoveSearch
  import opened SearchFacts
  import opened Outcomes

  /** The square the computer plays: the one minimax picks at the root with
      the computer to move. `None` stands for the library's `[-1, -1]`. */
  function GetNextMove(board: Board): (r: Option<Path>)
    ensures r.Some? <==> GetBoardWinner(board).None? && AreMovesRemaining(board)
    ensures r.Some? ==> IsEmpty(board, r.value)
  {
    MinimaxMoveIsOpen(board, Computer, 0);
    Minimax(board, Computer, 0).move
  }

  /** Every board the game can show is a valid root for the search. */
  lemma RootDepthOk(board: Board)
    ensures DepthOk(board, 0)
  {
    EmptyCountAtMostNine(board);
  }

  /** Perfect play: when the computer can force a win, it can still force
      one after its move; and when the human cannot force a win, the human
      still cannot after the computer's move. */
  lemma NextMoveIsOptimal(board: Board)
    requires GetBoardWinner(board).None? && AreMovesRemaining(board)
    ensures CanForceWin(board, Computer, Computer) ==>
              CanForceWin(Play(board, GetNextMove(board).value, Computer), Human, Computer)
    ensures !CanForceWin(board, Computer, Human) ==>
              !CanForceWin(Play(board, GetNextMove(board).value, Computer), Human, Human)
  {
    RootDepthOk(board);
    MinimaxStep(board, Computer, 0);
    var m := GetNextMove(board).value;
    var c := Play(board, m, Computer);
    var v := Minimax(board, Computer, 0).value;
    assert v == Minimax(c, Human, 1).value;
    assert DepthOk(c, 1);
    MinimaxSign(board, Computer, 0);
    MinimaxSign(c, Human, 1);
  }

  /** `m` completes a row, column or diagonal of `mark` when played on the
      open square `p`. */
  ghost predicate Completes(board: Board, p: Path, mark: Move)
  {
    IsEmpty(board, p) && ThreeInARow(GetUpdatedBoard(board, p, mark), mark)
  }

  /** A board with no winner has no line of either mark. */
  lemma NoWinnerNoLine(board: Board)
    requires GetBoardWinner(board).None?
    ensures !ThreeInARow(board, X) && !ThreeInARow(board, O)
  {
    WinnerMatchesThreeInARow(board);
  }

  /** After `player` plays the open square `p` on a board without a winner,
      the winner is `player` exactly when the move completes a line. */
  lemma WinnerAfterPlay(board: Board, p: Path, player: Player)
    requires GetBoardWinner(board).None? && IsEmpty(board, p)
    ensures Completes(board, p, PlayerMove(player)) ==> GetBoardWinner(Play(board, p, player)) == Some(player)
    ensures !Completes(board, p, PlayerMove(player)) ==> GetBoardWinner(Play(board, p, player)).None?
  {
    var other := PlayerMove(OtherPlayer(player));
    var after := Play(board, p, player);
    NoWinnerNoLine(board);
    MarksAfterWrite(board, p, PlayerMove(player), other);
    if ThreeInARow(after, other) {
      ThreeInARowMonotone(after, board, other);
    }
    WinnerMatchesThreeInARow(after);
    if player == Human {
      assert other == O;
    } else {
      assert other == X;
    }
  }

  /** When the computer can complete a line, it does so at once, at the
      first such square in row-by-row order. */
  lemma TakesImmediateWin(board: Board, w: Path)
    requires GetBoardWinner(board).None?
    requires Completes(board, w, O)
    ensures GetNextMove(board).Some?
    ensures Completes(board, GetNextMove(board).value, O)
    ensures RowMajor(GetNextMove(board).value) <= RowMajor(w)
  {
    MovesRemainingIffOpenSquare(board);
    RootDepthOk(board);
    MinimaxChoice(board, Computer, 0);
    var m := GetNextMove(board).value;
    WinnerAfterPlay(board, w, Computer);
    MinimaxScores(Play(board, w, Computer), Human, 1);
    assert ChildValue(board, Computer, 0, w) == 9;
    var child := Play(board, m, Computer);
    MinimaxBounds(child, Human, 1);
    MinimaxScores(child, Human, 1);
    WinnerAfterPlay(board, m, Computer);
  }

  /** A move that leaves the human's threat at `t` open loses: the human
      completes the line next, so the score is at most -8. */
  lemma UnblockedThreatLoses(board: Board, m: Path, t: Path)
    requires GetBoardWinner(board).None?
    requires IsEmpty(board, m) && !Completes(board, m, O)
    requires Completes(board, t, X) && m != t
    ensures ChildValue(board, Computer, 0, m) <= -8
  {
    var c := Play(board, m, Computer);
    WinnerAfterPlay(board, m, Computer);
    assert IsEmpty(c, t);
    var g := Play(c, t, Human);
    NoWinnerNoLine(c);
    assert MarksKept(GetUpdatedBoard(board, t, X), g, X);
    ThreeInARowMonotone(GetUpdatedBoard(board, t, X), g, X);
    assert Completes(c, t, X);
    WinnerAfterPlay(c, t, Human);
    MinimaxScores(g, Computer, 2);
    MovesRemainingIffOpenSquare(c);
    MinimaxChoice(c, Human, 1);
  }

  /** Blocking the human's only threat at `t`, when the computer has no
      immediate win, keeps the score above -8: no human reply wins at once. */
  lemma BlockingHolds(board: Board, t: Path)
    requires GetBoardWinner(board).None?
    requires forall p: Path :: !Completes(board, p, O)
    requires Completes(board, t, X)
    requires forall p: Path :: Completes(board, p, X) ==> p == t
    ensures ChildValue(board, Computer, 0, t) >= -7
  {
    var c := Play(board, t, Computer);
    WinnerAfterPlay(board, t, Computer);
    RootDepthOk(board);
    MinimaxScores(c, Human, 1);
    if AreMovesRemaining(c) {
      MinimaxStep(c, Human, 1);
      var q := Minimax(c, Human, 1).move.value;
      var g := Play(c, q, Human);
      if Completes(c, q, X) {
        MarksAfterWrite(board, t, O, X);
        assert MarksKept(g, GetUpdatedBoard(board, q, X), X);
        ThreeInARowMonotone(g, GetUpdatedBoard(board, q, X), X);
        assert Completes(board, q, X);
        assert false;
      }
      WinnerAfterPlay(c, q, Human);
      MinimaxBounds(g, Computer, 2);
    }
  }

  /** When the computer cannot complete a line and the human threatens to
      complete one at a single square `t`, the computer plays `t`. */
  lemma BlocksOnlyThreat(board: Board, t: Path)
    requires GetBoardWinner(board).None?
    requires forall p: Path :: !Completes(board, p, O)
    requires Completes(board, t, X)
    requires forall p: Path :: Completes(board, p, X) ==> p == t
    ensures GetNextMove(board) == Some(t)
  {
    MovesRemainingIffOpenSquare(board);
    MinimaxChoice(board, Computer, 0);
    var m := GetNextMove(board).value;
    if m != t {
      UnblockedThreatLoses(board, m, t);
      BlockingHolds(board, t);
      assert false;
    }
  }
}
