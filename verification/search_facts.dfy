/** What the move search computes: the scores of finished games, and on
    open positions the first best square in row-by-row order. */
module SearchFacts {
  import opened BoardModel
  import opened MoveSearch

  /** The comparison loop returns either its starting value, when no entry
      beats it, or the entry at `i`: one that beats the starting value, that
      no entry beats, and that strictly beats every entry before it. */
  lemma {:induction false} PickBestIsFirstBest(player: Player, scored: seq<Scored>, best: SearchResult) returns (i: int)
    ensures -1 <= i < |scored|
    ensures i == -1 ==>
              && PickBest(player, scored, best) == best
              && (scored != [] ==> best.move.Some?)
              && (forall j :: 0 <= j < |scored| ==> !Prefers(player, scored[j].value, best.value))
    ensures 0 <= i ==>
              && PickBest(player, scored, best) == SearchResult(scored[i].value, Some(scored[i].square))
              && (best.move.None? || Prefers(player, scored[i].value, best.value))
              && (forall j :: 0 <= j < |scored| ==> !Prefers(player, scored[j].value, scored[i].value))
              && (forall j :: 0 <= j < i ==> Prefers(player, scored[i].value, scored[j].value))
  {
    if scored == [] {
      i := -1;
    } else {
      var c := scored[0];
      var tail := scored[1..];
      if best.move.None? || Prefers(player, c.value, best.value) {
        var k := PickBestIsFirstBest(player, tail, SearchResult(c.value, Some(c.square)));
        if k == -1 {
          i := 0;
        } else {
          i := k + 1;
          assert scored[i] == tail[k];
        }
      } else {
        var k := PickBestIsFirstBest(player, tail, best);
        if k == -1 {
          i := -1;
        } else {
          i := k + 1;
          assert scored[i] == tail[k];
        }
      }
      forall j | 1 <= j < |scored| ensures scored[j] == tail[j - 1] {
      }
    }
  }

  /** The scoring pass scores every square of the list, in order. */
  lemma {:induction false} ScoreAllScoresEach(board: Board, player: Player, depth: int, open: seq<Path>)
    requires AllOpen(board, open)
    ensures |ScoreAll(board, player, depth, open)| == |open|
    ensures forall j :: 0 <= j < |open| ==>
              ScoreAll(board, player, depth, open)[j] == Scored(open[j], ChildValue(board, player, depth, open[j]))
  {
    if open != [] {
      var tail := open[1..];
      assert AllOpen(board, tail) by {
        forall j | 0 <= j < |tail| ensures IsEmpty(board, tail[j]) {
          assert tail[j] == open[j + 1];
        }
      }
      ScoreAllScoresEach(board, player, depth, tail);
      forall j | 1 <= j < |open| ensures open[j] == tail[j - 1] {
      }
    }
  }

  /** The scores the search gives to finished games: 10 minus the depth for
      a computer win, the depth minus 10 for a human win, 0 for a draw; no
      square is returned. */
  lemma MinimaxScores(board: Board, player: Player, depth: int)
    ensures GetBoardWinner(board) == Some(Computer) ==> Minimax(board, player, depth) == SearchResult(10 - depth, None)
    ensures GetBoardWinner(board) == Some(Human) ==> Minimax(board, player, depth) == SearchResult(-10 + depth, None)
    ensures GetBoardWinner(board).None? && !AreMovesRemaining(board) ==> Minimax(board, player, depth) == SearchResult(0, None)
  {
  }

  /** On an open position the search is the comparison loop over the scores
      of all open squares. */
  lemma MinimaxOpenPosition(board: Board, player: Player, depth: int)
    requires GetBoardWinner(board).None? && AreMovesRemaining(board)
    ensures AllOpen(board, Empties(board))
    ensures Minimax(board, player, depth) == PickBest(player, ScoreAll(board, player, depth, Empties(board)), Unset)
  {
    EmptiesListsOpenSquares(board);
  }

  /** The open square at position `j` of the list of open squares has the
      `j`-th score, and every open square is in the list. */
  lemma ScoresOfOpenSquares(board: Board, player: Player, depth: int, q: Path) returns (j: int)
    requires IsEmpty(board, q)
    ensures AllOpen(board, Empties(board))
    ensures 0 <= j < |Empties(board)| == |ScoreAll(board, player, depth, Empties(board))|
    ensures Empties(board)[j] == q
    ensures ScoreAll(board, player, depth, Empties(board))[j].value == ChildValue(board, player, depth, q)
  {
    EmptiesListsOpenSquares(board);
    ScoreAllScoresEach(board, player, depth, Empties(board));
    assert q in Empties(board);
    j :| 0 <= j < |Empties(board)| && Empties(board)[j] == q;
  }

  /** On an open position the search returns the open square at some
      position `i` of the list of open squares, with that square's score; no
      listed square scores better, and every square listed before it scores
      strictly worse. */
  lemma MinimaxPick(board: Board, player: Player, depth: int) returns (i: int)
    requires GetBoardWinner(board).None? && AreMovesRemaining(board)
    ensures AllOpen(board, Empties(board))
    ensures 0 <= i < |Empties(board)|
    ensures Minimax(board, player, depth)
         == SearchResult(ChildValue(board, player, depth, Empties(board)[i]), Some(Empties(board)[i]))
    ensures forall j :: 0 <= j < |Empties(board)| ==>
              !Prefers(player, ChildValue(board, player, depth, Empties(board)[j]), ChildValue(board, player, depth, Empties(board)[i]))
    ensures forall j :: 0 <= j < i ==>
              Prefers(player, ChildValue(board, player, depth, Empties(board)[i]), ChildValue(board, player, depth, Empties(board)[j]))
  {
    MinimaxOpenPosition(board, player, depth);
    OpenSquaresToScore(board, player, depth);
    var open := Empties(board);
    var scored := ScoreAll(board, player, depth, open);
    ScoreAllScoresEach(board, player, depth, open);
    i := PickBestIsFirstBest(player, scored, Unset);
  }

  /** On an open position the search returns the first best open square in
      row-by-row order: the square is open, its score is the result's score,
      no open square scores better for the player to move, and every open
      square before it scores strictly worse. */
  lemma MinimaxChoice(board: Board, player: Player, depth: int)
    requires GetBoardWinner(board).None? && AreMovesRemaining(board)
    ensures Minimax(board, player, depth).move.Some?
    ensures IsEmpty(board, Minimax(board, player, depth).move.value)
    ensures Minimax(board, player, depth).value == ChildValue(board, player, depth, Minimax(board, player, depth).move.value)
    ensures forall q: Path :: IsEmpty(board, q) ==>
              !Prefers(player, ChildValue(board, player, depth, q), Minimax(board, player, depth).value)
    ensures forall q: Path :: IsEmpty(board, q) && RowMajor(q) < RowMajor(Minimax(board, player, depth).move.value) ==>
              Prefers(player, Minimax(board, player, depth).value, ChildValue(board, player, depth, q))
  {
    var i := MinimaxPick(board, player, depth);
    var open := Empties(board);
    EmptiesListsOpenSquares(board);
    forall q: Path | IsEmpty(board, q)
      ensures !Prefers(player, ChildValue(board, player, depth, q), ChildValue(board, player, depth, open[i]))
      ensures RowMajor(q) < RowMajor(open[i]) ==> Prefers(player, ChildValue(board, player, depth, open[i]), ChildValue(board, player, depth, q))
    {
      assert q in open;
      var j :| 0 <= j < |open| && open[j] == q;
      if RowMajor(q) < RowMajor(open[i]) {
        assert j < i;
      }
    }
  }

  /** On an open position there is at least one open square to score. */
  lemma OpenSquaresToScore(board: Board, player: Player, depth: int)
    requires AreMovesRemaining(board)
    ensures AllOpen(board, Empties(board))
    ensures 0 < |Empties(board)| == |ScoreAll(board, player, depth, Empties(board))|
  {
    MovesRemainingIffOpenSquare(board);
    var p: Path :| IsEmpty(board, p);
    var j := ScoresOfOpenSquares(board, player, depth, p);
  }

  /** On an open position the search's score is the score of the position
      one move deeper, after the chosen square is played. */
  lemma MinimaxStep(board: Board, player: Player, depth: int)
    requires GetBoardWinner(board).None? && AreMovesRemaining(board)
    ensures Minimax(board, player, depth).move.Some?
    ensures IsEmpty(board, Minimax(board, player, depth).move.value)
    ensures EmptyCount(Play(board, Minimax(board, player, depth).move.value, player)) == EmptyCount(board) - 1
    ensures Minimax(board, player, depth).value
         == Minimax(Play(board, Minimax(board, player, depth).move.value, player), OtherPlayer(player), depth + 1).value
  {
    MinimaxChoice(board, player, depth);
  }

  /** The search returns a square exactly on open positions, and the square
      is open. */
  lemma MinimaxMoveIsOpen(board: Board, player: Player, depth: int)
    ensures Minimax(board, player, depth).move.Some? <==> GetBoardWinner(board).None? && AreMovesRemaining(board)
    ensures Minimax(board, player, depth).move.Some? ==> IsEmpty(board, Minimax(board, player, depth).move.value)
  {
    MinimaxScores(board, player, depth);
    if GetBoardWinner(board).None? && AreMovesRemaining(board) {
      MinimaxChoice(board, player, depth);
    }
  }
}
