/** The positions of the library's own test suite, with the answers the
    model gives for them. */
module Scenarios {
  import opened BoardModel
  import opened MoveSearch
  import opened NextMove

  const x: SquareState := Some(X)
  const o: SquareState := Some(O)
  const e: SquareState := None

  const Incomplete: Board := [[x, e, x], [x, o, o], [e, e, o]]
  const RowWin: Board := [[x, x, x], [x, o, o], [e, e, o]]
  const ColumnWin: Board := [[x, x, o], [x, o, o], [e, e, o]]
  const MainDiagonalWin: Board := [[o, x, x], [x, o, o], [e, e, o]]
  const MinorDiagonalWin: Board := [[x, x, o], [x, o, o], [o, e, x]]

  /** Every square filled and no line complete. */
  const DrawBoard: Board := [[x, o, x], [x, o, o], [o, x, x]]

  /** The human threatens the right column; the computer has no line to
      complete. */
  const BlockBoard: Board := [[x, o, x], [e, o, e], [o, x, x]]

  /** The computer can complete the middle column. */
  const WinBoard: Board := [[x, o, x], [e, o, e], [o, e, x]]

  /** No winner on an empty board or on one where no line is complete; the
      owner of a completed row, column or either diagonal otherwise. */
  lemma WinnerScenarios()
    ensures GetBoardWinner(EmptyBoard()).None?
    ensures GetBoardWinner(Incomplete).None?
    ensures GetBoardWinner(RowWin) == Some(Human)
    ensures GetBoardWinner(ColumnWin) == Some(Computer)
    ensures GetBoardWinner(MainDiagonalWin) == Some(Computer)
    ensures GetBoardWinner(MinorDiagonalWin) == Some(Computer)
  {
  }

  /** A full board without a line is a draw: no winner, no square left,
      and no move to make. */
  lemma DrawScenario()
    ensures GetBoardWinner(DrawBoard).None?
    ensures !AreMovesRemaining(DrawBoard)
    ensures GetNextMove(DrawBoard).None?
  {
    MovesRemainingIffOpenSquare(DrawBoard);
    assert forall p: Path :: !IsEmpty(DrawBoard, p);
  }

  /** `after` is `board` with `mark` written on the open square `p`, so the
      move completes a line exactly when `after` has one. */
  lemma Written(board: Board, p: Path, mark: Move, after: Board)
    requires IsEmpty(board, p)
    requires SquareAt(after, p) == Some(mark)
    requires forall q: Path :: q != p ==> SquareAt(after, q) == SquareAt(board, q)
    ensures Completes(board, p, mark) <==> ThreeInARow(after, mark)
  {
    SameSquaresSameBoard(GetUpdatedBoard(board, p, mark), after);
  }

  lemma BlockBoardFacts()
    ensures GetBoardWinner(BlockBoard).None?
    ensures forall p: Path :: IsEmpty(BlockBoard, p) ==> p == Path(1, 0) || p == Path(1, 2)
  {
  }

  lemma BlockLeftO()
    ensures !Completes(BlockBoard, Path(1, 0), O)
  {
    var after: Board := [[x, o, x], [o, o, e], [o, x, x]];
    Written(BlockBoard, Path(1, 0), O, after);
    WinnerMatchesThreeInARow(after);
  }

  lemma BlockRightO()
    ensures !Completes(BlockBoard, Path(1, 2), O)
  {
    var after: Board := [[x, o, x], [e, o, o], [o, x, x]];
    Written(BlockBoard, Path(1, 2), O, after);
    WinnerMatchesThreeInARow(after);
  }

  lemma BlockLeftX()
    ensures !Completes(BlockBoard, Path(1, 0), X)
  {
    var after: Board := [[x, o, x], [x, o, e], [o, x, x]];
    Written(BlockBoard, Path(1, 0), X, after);
    WinnerMatchesThreeInARow(after);
  }

  lemma BlockRightX()
    ensures Completes(BlockBoard, Path(1, 2), X)
  {
    var after: Board := [[x, o, x], [e, o, x], [o, x, x]];
    Written(BlockBoard, Path(1, 2), X, after);
    WinnerMatchesThreeInARow(after);
  }

  /** On the blocking position the computer plays the middle square of the
      right-hand column. */
  lemma BlocksTheThreat()
    ensures GetNextMove(BlockBoard) == Some(Path(1, 2))
  {
    BlockBoardFacts();
    BlockLeftO();
    BlockRightO();
    BlockLeftX();
    BlockRightX();
    BlocksOnlyThreat(BlockBoard, Path(1, 2));
  }

  lemma WinBoardFacts()
    ensures GetBoardWinner(WinBoard).None?
    ensures forall p: Path :: IsEmpty(WinBoard, p) ==> p == Path(1, 0) || p == Path(1, 2) || p == Path(2, 1)
  {
  }

  lemma WinBottomO()
    ensures Completes(WinBoard, Path(2, 1), O)
  {
    var after: Board := [[x, o, x], [e, o, e], [o, o, x]];
    Written(WinBoard, Path(2, 1), O, after);
    WinnerMatchesThreeInARow(after);
  }

  lemma WinLeftO()
    ensures !Completes(WinBoard, Path(1, 0), O)
  {
    var after: Board := [[x, o, x], [o, o, e], [o, e, x]];
    Written(WinBoard, Path(1, 0), O, after);
    WinnerMatchesThreeInARow(after);
  }

  lemma WinRightO()
    ensures !Completes(WinBoard, Path(1, 2), O)
  {
    var after: Board := [[x, o, x], [e, o, o], [o, e, x]];
    Written(WinBoard, Path(1, 2), O, after);
    WinnerMatchesThreeInARow(after);
  }

  /** On the winning position the computer completes the middle column. */
  lemma TakesTheWin()
    ensures GetNextMove(WinBoard) == Some(Path(2, 1))
  {
    WinBoardFacts();
    WinBottomO();
    WinLeftO();
    WinRightO();
    TakesImmediateWin(WinBoard, Path(2, 1));
  }
}
