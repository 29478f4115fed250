/** The computer's move search: an exhaustive minimax over the game tree.
    The computer maximises the score, the human minimises it; a win scores
    10 minus the number of moves made to reach it, a loss minus that, a draw
    0, so a nearer win and a farther loss are preferred. Ties go to the
    first open square in row-by-row order. */
module MoveSearch {
  import opened BoardModel

  /** The score of a position and the square chosen there; `None` stands for
      the library's `[-1, -1]`, returned when the game is already over. */
  datatype SearchResult = SearchResult(value: int, move: Option<Path>)

  /** `player` puts its own mark on `p`. */
  function Play(board: Board, p: Path, player: Player): Board
  {
    GetUpdatedBoard(board, p, PlayerMove(player))
  }

  /** Score `v` is strictly better than `w` for `player`: higher for the
      computer, lower for the human. */
  predicate Prefers(player: Player, v: int, w: int)
  {
    (player == Computer && v > w) || (player == Human && v < w)
  }

  /** Every square listed is open. */
  ghost predicate AllOpen(board: Board, open: seq<Path>)
  {
    forall j :: 0 <= j < |open| ==> IsEmpty(board, open[j])
  }

  /** The score of the position after `player` marks the open square `p`,
      searched with the other player to move one level deeper. */
  function ChildValue(board: Board, player: Player, depth: int, p: Path): int
    requires IsEmpty(board, p)
    decreases EmptyCount(board), 0, 0
  {
    Minimax(Play(board, p, player), OtherPlayer(player), depth + 1).value
  }

  /** An open square together with the score of playing there. */
  datatype Scored = Scored(square: Path, value: int)

  /** The body of the loop over the open squares, first half: the score of
      each square of `open`, in order. */
  function ScoreAll(board: Board, player: Player, depth: int, open: seq<Path>): seq<Scored>
    requires AllOpen(board, open)
    decreases EmptyCount(board), 0, |open|
  {
    if open == [] then []
    else [Scored(open[0], ChildValue(board, player, depth, open[0]))] + ScoreAll(board, player, depth, open[1..])
  }

  /** The loop's comparison, second half: a square replaces the best one only
      when its score is strictly better. A best result without a square
      stands for the starting value (-Infinity for the computer, Infinity for
      the human), which every score beats. */
  function PickBest(player: Player, scored: seq<Scored>, best: SearchResult): SearchResult
  {
    if scored == [] then best
    else if best.move.None? || Prefers(player, scored[0].value, best.value) then
      PickBest(player, scored[1..], SearchResult(scored[0].value, Some(scored[0].square)))
    else
      PickBest(player, scored[1..], best)
  }

  /** The loop's starting value, before any square has been examined. */
  const Unset: SearchResult := SearchResult(0, None)

  /** Minimax search from `board` with `player` to move, `depth` moves below
      the root. */
  function Minimax(board: Board, player: Player, depth: int): SearchResult
    decreases EmptyCount(board), 1, 0
  {
    var winner := GetBoardWinner(board);
    if winner.Some? then
      SearchResult(if winner.value == Computer then 10 - depth else -10 + depth, None)
    else if !AreMovesRemaining(board) then
      SearchResult(0, None)
    else
      EmptiesListsOpenSquares(board);
      PickBest(player, ScoreAll(board, player, depth, Empties(board)), Unset)
  }
}
