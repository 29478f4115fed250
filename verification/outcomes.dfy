/** What the scores mean: bounds on the score at each depth, and the sign of
    the score against an independent definition of a forced win. */
module Outcomes {
  import opened BoardModel
  import opened MoveSearch
  import opened SearchFacts

  /** `depth` moves have been made since the root and the open squares left
      fit on the board: every position the search reaches from a real board
      at depth 0 satisfies this. */
  predicate DepthOk(board: Board, depth: int)
  {
    0 <= depth && depth + EmptyCount(board) <= 9
  }

  /** Scores lie within 10 minus the depth of 0, and within 9 minus the
      depth when the position has no winner yet. */
  lemma {:induction false} MinimaxBounds(board: Board, player: Player, depth: int)
    requires DepthOk(board, depth)
    ensures -10 + depth <= Minimax(board, player, depth).value <= 10 - depth
    ensures GetBoardWinner(board).None? ==> -9 + depth <= Minimax(board, player, depth).value <= 9 - depth
    decreases EmptyCount(board)
  {
    MinimaxScores(board, player, depth);
    if GetBoardWinner(board).None? && AreMovesRemaining(board) {
      MinimaxStep(board, player, depth);
      var p := Minimax(board, player, depth).move.value;
      MinimaxBounds(Play(board, p, player), OtherPlayer(player), depth + 1);
    }
  }

  /** `goal` can force a win from `board` with `toMove` to play: the game is
      already won by `goal`, or `goal` is to move and some move keeps a
      forced win, or the opponent is to move, has a move, and every move
      keeps a forced win. Defined by the rules alone, without scores. */
  ghost predicate CanForceWin(board: Board, toMove: Player, goal: Player)
    decreases EmptyCount(board)
  {
    var winner := GetBoardWinner(board);
    if winner.Some? then winner.value == goal
    else if toMove == goal then
      exists p: Path :: IsEmpty(board, p) && CanForceWin(Play(board, p, toMove), OtherPlayer(toMove), goal)
    else
      && (exists p: Path :: IsEmpty(board, p))
      && forall p: Path :: IsEmpty(board, p) ==> CanForceWin(Play(board, p, toMove), OtherPlayer(toMove), goal)
  }

  /** A positive score means the computer can force a win, a negative one
      that the human can, and 0 that neither can (a draw with best play). */
  lemma {:induction false} MinimaxSign(board: Board, player: Player, depth: int)
    requires DepthOk(board, depth)
    ensures Minimax(board, player, depth).value > 0 <==> CanForceWin(board, player, Computer)
    ensures Minimax(board, player, depth).value < 0 <==> CanForceWin(board, player, Human)
    decreases EmptyCount(board), 1
  {
    if GetBoardWinner(board).Some? || !AreMovesRemaining(board) {
      SignOfFinishedGame(board, player, depth);
    } else {
      ChildSigns(board, player, depth);
      MinimaxChoice(board, player, depth);
      var m := Minimax(board, player, depth).move.value;
      if player == Computer {
        SignWhenMaximising(board, depth, m);
      } else {
        SignWhenMinimising(board, depth, m);
      }
    }
  }

  /** The sign of a finished game's score matches its winner. */
  lemma SignOfFinishedGame(board: Board, player: Player, depth: int)
    requires DepthOk(board, depth)
    requires GetBoardWinner(board).Some? || !AreMovesRemaining(board)
    ensures Minimax(board, player, depth).value > 0 <==> CanForceWin(board, player, Computer)
    ensures Minimax(board, player, depth).value < 0 <==> CanForceWin(board, player, Human)
  {
    MinimaxScores(board, player, depth);
    MovesRemainingIffOpenSquare(board);
  }

  /** The sign of every child's score matches who can force a win there. */
  lemma ChildSigns(board: Board, player: Player, depth: int)
    requires DepthOk(board, depth)
    requires GetBoardWinner(board).None? && AreMovesRemaining(board)
    ensures forall p: Path :: IsEmpty(board, p) ==>
              && (ChildValue(board, player, depth, p) > 0 <==> CanForceWin(Play(board, p, player), OtherPlayer(player), Computer))
              && (ChildValue(board, player, depth, p) < 0 <==> CanForceWin(Play(board, p, player), OtherPlayer(player), Human))
    decreases EmptyCount(board), 0
  {
    forall p: Path | IsEmpty(board, p)
      ensures ChildValue(board, player, depth, p) > 0 <==> CanForceWin(Play(board, p, player), OtherPlayer(player), Computer)
      ensures ChildValue(board, player, depth, p) < 0 <==> CanForceWin(Play(board, p, player), OtherPlayer(player), Human)
    {
      MinimaxSign(Play(board, p, player), OtherPlayer(player), depth + 1);
    }
  }

  /** The computer's score is the largest child score, attained at `m`. */
  lemma SignWhenMaximising(board: Board, depth: int, m: Path)
    requires GetBoardWinner(board).None? && AreMovesRemaining(board)
    requires IsEmpty(board, m)
    requires Minimax(board, Computer, depth).value == ChildValue(board, Computer, depth, m)
    requires forall q: Path :: IsEmpty(board, q) ==> ChildValue(board, Computer, depth, q) <= ChildValue(board, Computer, depth, m)
    requires forall p: Path :: IsEmpty(board, p) ==>
               && (ChildValue(board, Computer, depth, p) > 0 <==> CanForceWin(Play(board, p, Computer), Human, Computer))
               && (ChildValue(board, Computer, depth, p) < 0 <==> CanForceWin(Play(board, p, Computer), Human, Human))
    ensures Minimax(board, Computer, depth).value > 0 <==> CanForceWin(board, Computer, Computer)
    ensures Minimax(board, Computer, depth).value < 0 <==> CanForceWin(board, Computer, Human)
  {
  }

  /** The human's score is the smallest child score, attained at `m`. */
  lemma SignWhenMinimising(board: Board, depth: int, m: Path)
    requires GetBoardWinner(board).None? && AreMovesRemaining(board)
    requires IsEmpty(board, m)
    requires Minimax(board, Human, depth).value == ChildValue(board, Human, depth, m)
    requires forall q: Path :: IsEmpty(board, q) ==> ChildValue(board, Human, depth, m) <= ChildValue(board, Human, depth, q)
    requires forall p: Path :: IsEmpty(board, p) ==>
               && (ChildValue(board, Human, depth, p) > 0 <==> CanForceWin(Play(board, p, Human), Computer, Computer))
               && (ChildValue(board, Human, depth, p) < 0 <==> CanForceWin(Play(board, p, Human), Computer, Human))
    ensures Minimax(board, Human, depth).value > 0 <==> CanForceWin(board, Human, Computer)
    ensures Minimax(board, Human, depth).value < 0 <==> CanForceWin(board, Human, Human)
  {
  }
}
