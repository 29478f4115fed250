/** The board model of the tic-tac-toe game: the two marks, the two players
    and the mark each one plays, the 3x3 board, placing a mark, finding a
    completed line and naming the winner.

    Every operation is a pure function; a board is a value, so "updating" a
    board yields a new one and can never change the board it was made from. */
module BoardModel {

  /** Present-or-absent value; `None` stands for the TypeScript library's `null`. */
  datatype Option<+T> = None | Some(value: T)

  /** A mark that may be placed on a single square. */
  datatype Move = X | O

  /** The state of one square: a mark, or `None` while the square is open. */
  type SquareState = Option<Move>

  /** A row or column coordinate. */
  type Index = i: int | 0 <= i < 3

  /** A square of the board, addressed by row and column. */
  datatype Path = Path(row: Index, col: Index)

  /** Three rows of three squares each. */
  type Board = b: seq<seq<SquareState>> | |b| == 3 && |b[0]| == 3 && |b[1]| == 3 && |b[2]| == 3
    witness [[None, None, None], [None, None, None], [None, None, None]]

  /** It is either the human's turn or the computer's. */
  datatype Player = Human | Computer

  /** The fixed mark of each player: the human plays X, the computer plays O. */
  function PlayerMove(player: Player): Move
  {
    match player
    case Human => X
    case Computer => O
  }

  /** The player whose turn follows `player`'s. */
  function OtherPlayer(player: Player): (r: Player)
    ensures r != player
    ensures PlayerMove(r) != PlayerMove(player)
  {
    if player == Human then Computer else Human
  }

  /** The state of the square at `p`. */
  function SquareAt(board: Board, p: Path): SquareState
  {
    board[p.row][p.col]
  }

  /** The square at `p` holds no mark. */
  predicate IsEmpty(board: Board, p: Path)
  {
    SquareAt(board, p).None?
  }

  /** Position of a square when the board is read row by row. */
  function RowMajor(p: Path): nat
  {
    3 * p.row + p.col
  }

  /** Number of open squares in one row. */
  function CountOpen(row: seq<SquareState>): nat
  {
    if row == [] then 0 else (if row[0].None? then 1 else 0) + CountOpen(row[1..])
  }

  /** Number of open squares on the board. */
  function EmptyCount(board: Board): nat
  {
    CountOpen(board[0]) + CountOpen(board[1]) + CountOpen(board[2])
  }

  lemma {:induction false} CountOpenAtMostLength(row: seq<SquareState>)
    ensures CountOpen(row) <= |row|
  {
    if row != [] {
      CountOpenAtMostLength(row[1..]);
    }
  }

  lemma EmptyCountAtMostNine(board: Board)
    ensures EmptyCount(board) <= 9
  {
    CountOpenAtMostLength(board[0]);
    CountOpenAtMostLength(board[1]);
    CountOpenAtMostLength(board[2]);
  }

  /** Writing a mark into a row closes exactly the square written, if it was open. */
  lemma {:induction false} CountOpenAfterWrite(row: seq<SquareState>, j: nat, m: Move)
    requires j < |row|
    ensures CountOpen(row[j := Some(m)]) == CountOpen(row) - (if row[j].None? then 1 else 0)
    decreases j
  {
    if j == 0 {
      assert row[j := Some(m)][1..] == row[1..];
    } else {
      assert row[j := Some(m)][1..] == row[1..][j - 1 := Some(m)];
      CountOpenAfterWrite(row[1..], j - 1, m);
    }
  }

  /** A board with all nine squares open. */
  function EmptyBoard(): (board: Board)
    ensures forall p: Path :: IsEmpty(board, p)
    ensures EmptyCount(board) == 9
  {
    var row := [None, None, None];
    [row, row, row]
  }

  /** The board after `m` is written at `p`. The square is overwritten even
      when it already holds a mark; callers only write to open squares. */
  function GetUpdatedBoard(board: Board, p: Path, m: Move): (r: Board)
    ensures SquareAt(r, p) == Some(m)
    ensures forall q: Path :: q != p ==> SquareAt(r, q) == SquareAt(board, q)
    ensures IsEmpty(board, p) ==> EmptyCount(r) == EmptyCount(board) - 1
    ensures !IsEmpty(board, p) ==> EmptyCount(r) == EmptyCount(board)
  {
    CountOpenAfterWrite(board[p.row], p.col, m);
    board[p.row := board[p.row][p.col := Some(m)]]
  }

  /** Three squares of the board, in the order the library lists them. */
  datatype Line = Line(first: Path, second: Path, third: Path)

  function RowLine(i: Index): Line
  {
    Line(Path(i, 0), Path(i, 1), Path(i, 2))
  }

  function ColumnLine(i: Index): Line
  {
    Line(Path(0, i), Path(1, i), Path(2, i))
  }

  const MainDiagonal: Line := Line(Path(0, 0), Path(1, 1), Path(2, 2))

  const MinorDiagonal: Line := Line(Path(0, 2), Path(1, 1), Path(2, 0))

  /** The eight lines in the order they are examined: row i, then column i,
      for i = 0, 1, 2; then the main diagonal; then the minor diagonal. */
  const ScanOrder: seq<Line> := [RowLine(0), ColumnLine(0), RowLine(1), ColumnLine(1),
                                 RowLine(2), ColumnLine(2), MainDiagonal, MinorDiagonal]

  /** All three squares of `line` hold mark `m`. */
  predicate FilledWith(board: Board, line: Line, m: Move)
  {
    && SquareAt(board, line.first) == Some(m)
    && SquareAt(board, line.second) == Some(m)
    && SquareAt(board, line.third) == Some(m)
  }

  /** The first square of the line is marked and the three squares hold a
      single distinct state. */
  function IsWinningLine(board: Board, line: Line): (r: bool)
    ensures r <==> exists m: Move :: FilledWith(board, line, m)
  {
    var s := SquareAt(board, line.first);
    assert s.Some? && SquareAt(board, line.second) == s && SquareAt(board, line.third) == s
      ==> FilledWith(board, line, s.value);
    s.Some? && SquareAt(board, line.second) == s && SquareAt(board, line.third) == s
  }

  /** `k` is the first winning line of the scan at or after position `lo`. */
  ghost predicate FirstWinningFrom(board: Board, lo: nat, k: nat)
  {
    && lo <= k < |ScanOrder|
    && IsWinningLine(board, ScanOrder[k])
    && forall j :: lo <= j < k ==> !IsWinningLine(board, ScanOrder[j])
  }

  /** The loop over i = `i`, ..., 2 (row i, then column i), followed by the
      two diagonals; the first complete line found is returned. */
  function ScanFrom(board: Board, i: nat): Option<Line>
    requires i <= 3
    decreases 3 - i
  {
    if i < 3 then
      if IsWinningLine(board, RowLine(i)) then Some(RowLine(i))
      else if IsWinningLine(board, ColumnLine(i)) then Some(ColumnLine(i))
      else ScanFrom(board, i + 1)
    else if IsWinningLine(board, MainDiagonal) then Some(MainDiagonal)
    else if IsWinningLine(board, MinorDiagonal) then Some(MinorDiagonal)
    else None
  }

  /** The scan from iteration `i` on finds nothing exactly when no line from
      position 2i of the scan order on is complete, and otherwise finds the
      first complete one. */
  lemma {:induction false} ScanFromFindsFirst(board: Board, i: nat)
    requires i <= 3
    ensures ScanFrom(board, i).None? <==> forall k :: 2 * i <= k < |ScanOrder| ==> !IsWinningLine(board, ScanOrder[k])
    ensures ScanFrom(board, i).Some? ==> exists k: nat :: FirstWinningFrom(board, 2 * i, k) && ScanOrder[k] == ScanFrom(board, i).value
    decreases 3 - i
  {
    assert ScanOrder[6] == MainDiagonal && ScanOrder[7] == MinorDiagonal;
    if i < 3 {
      assert ScanOrder[2 * i] == RowLine(i) && ScanOrder[2 * i + 1] == ColumnLine(i);
      if !IsWinningLine(board, RowLine(i)) && !IsWinningLine(board, ColumnLine(i)) {
        ScanFromFindsFirst(board, i + 1);
        if ScanFrom(board, i + 1).Some? {
          var k: nat :| FirstWinningFrom(board, 2 * (i + 1), k) && ScanOrder[k] == ScanFrom(board, i + 1).value;
          assert FirstWinningFrom(board, 2 * i, k);
        }
      } else if IsWinningLine(board, RowLine(i)) {
        assert FirstWinningFrom(board, 2 * i, 2 * i);
      } else {
        assert FirstWinningFrom(board, 2 * i, 2 * i + 1);
      }
    } else if IsWinningLine(board, MainDiagonal) {
      assert FirstWinningFrom(board, 6, 6);
    } else if IsWinningLine(board, MinorDiagonal) {
      assert FirstWinningFrom(board, 6, 7);
    }
  }

  /** The first completed line in scan order, or `None` when no line is complete. */
  function GetWinningBoardSquares(board: Board): Option<Line>
  {
    ScanFrom(board, 0)
  }

  /** The line reported is complete and no line before it in scan order is;
      nothing is reported exactly when no line is complete. */
  lemma WinningSquaresFirstComplete(board: Board)
    ensures GetWinningBoardSquares(board).None? <==> forall k :: 0 <= k < |ScanOrder| ==> !IsWinningLine(board, ScanOrder[k])
    ensures GetWinningBoardSquares(board).Some? ==>
              exists k: nat :: FirstWinningFrom(board, 0, k) && ScanOrder[k] == GetWinningBoardSquares(board).value
    ensures GetWinningBoardSquares(board).Some? ==> IsWinningLine(board, GetWinningBoardSquares(board).value)
  {
    ScanFromFindsFirst(board, 0);
  }

  /** The player whose mark fills the first completed line, if there is one. */
  function GetBoardWinner(board: Board): (r: Option<Player>)
    ensures r.None? <==> GetWinningBoardSquares(board).None?
    ensures r.Some? ==> FilledWith(board, GetWinningBoardSquares(board).value, PlayerMove(r.value))
  {
    WinningSquaresFirstComplete(board);
    var winning := GetWinningBoardSquares(board);
    if winning.Some? then
      var mark := SquareAt(board, winning.value.first);
      assert IsWinningLine(board, winning.value);
      assert FilledWith(board, winning.value, mark.value);
      if mark == Some(PlayerMove(Computer)) then Some(Computer)
      else
        assert mark.Some? && mark.value != O;
        assert mark == Some(X);
        Some(Human)
    else
      None
  }

  /** The inner loop over the squares of one row: some square is open. */
  function RowHasOpen(row: seq<SquareState>): bool
  {
    row != [] && (row[0].None? || RowHasOpen(row[1..]))
  }

  /** The outer loop over the rows, stopping at the first open square. */
  function AnyRowHasOpen(rows: seq<seq<SquareState>>): bool
  {
    rows != [] && (RowHasOpen(rows[0]) || AnyRowHasOpen(rows[1..]))
  }

  lemma {:induction false} RowHasOpenFinds(row: seq<SquareState>)
    ensures RowHasOpen(row) <==> exists j :: 0 <= j < |row| && row[j].None?
  {
    if row != [] {
      RowHasOpenFinds(row[1..]);
      if j :| 1 <= j < |row| && row[j].None? {
        assert row[1..][j - 1].None?;
      }
    }
  }

  lemma {:induction false} AnyRowHasOpenFinds(rows: seq<seq<SquareState>>)
    ensures AnyRowHasOpen(rows) <==> exists i, j :: 0 <= i < |rows| && 0 <= j < |rows[i]| && rows[i][j].None?
  {
    if rows != [] {
      RowHasOpenFinds(rows[0]);
      AnyRowHasOpenFinds(rows[1..]);
      if i, j :| 1 <= i < |rows| && 0 <= j < |rows[i]| && rows[i][j].None? {
        assert rows[1..][i - 1][j].None?;
      }
    }
  }

  /** Whether any square is still open. */
  function AreMovesRemaining(board: Board): bool
  {
    AnyRowHasOpen(board)
  }

  /** Moves remain exactly when some square is open. */
  lemma MovesRemainingIffOpenSquare(board: Board)
    ensures AreMovesRemaining(board) <==> exists p: Path :: IsEmpty(board, p)
  {
    AnyRowHasOpenFinds(board);
    if i, j :| 0 <= i < |board| && 0 <= j < |board[i]| && board[i][j].None? {
      assert IsEmpty(board, Path(i, j));
    }
  }

  /** The nine squares, read row by row. */
  const AllPaths: seq<Path> := [Path(0, 0), Path(0, 1), Path(0, 2),
                                Path(1, 0), Path(1, 1), Path(1, 2),
                                Path(2, 0), Path(2, 1), Path(2, 2)]

  /** The squares of `s` appear in strictly increasing row-by-row order. */
  ghost predicate Increasing(s: seq<Path>)
  {
    forall i, j :: 0 <= i < j < |s| ==> RowMajor(s[i]) < RowMajor(s[j])
  }

  lemma AllPathsInOrder()
    ensures Increasing(AllPaths)
    ensures forall p: Path :: p in AllPaths
  {
    forall i | 0 <= i < |AllPaths| ensures RowMajor(AllPaths[i]) == i {
    }
    forall p: Path ensures p in AllPaths {
      assert AllPaths[RowMajor(p)] == p;
    }
  }

  /** The open squares among `cells`, in the order of `cells`. */
  function OpenAmong(board: Board, cells: seq<Path>): seq<Path>
  {
    if cells == [] then []
    else if IsEmpty(board, cells[0]) then [cells[0]] + OpenAmong(board, cells[1..])
    else OpenAmong(board, cells[1..])
  }

  /** Filtering keeps every open square of `cells` and nothing else. */
  lemma {:induction false} OpenAmongFilters(board: Board, cells: seq<Path>)
    ensures forall i :: 0 <= i < |OpenAmong(board, cells)| ==> IsEmpty(board, OpenAmong(board, cells)[i])
    ensures forall i :: 0 <= i < |cells| && IsEmpty(board, cells[i]) ==> cells[i] in OpenAmong(board, cells)
  {
    if cells != [] {
      OpenAmongFilters(board, cells[1..]);
      forall i | 0 <= i < |cells| && IsEmpty(board, cells[i]) ensures cells[i] in OpenAmong(board, cells) {
        if i > 0 {
          assert cells[i] == cells[1..][i - 1];
        }
      }
    }
  }

  /** Filtering keeps only squares of `cells`, each no earlier than the
      first of `cells`, so it keeps their order. */
  lemma {:induction false} OpenAmongKeepsOrder(board: Board, cells: seq<Path>)
    requires Increasing(cells)
    ensures cells != [] ==> forall i :: 0 <= i < |OpenAmong(board, cells)| ==> RowMajor(cells[0]) <= RowMajor(OpenAmong(board, cells)[i])
    ensures Increasing(OpenAmong(board, cells))
  {
    if cells != [] {
      var tail := cells[1..];
      forall i, j | 0 <= i < j < |tail| ensures RowMajor(tail[i]) < RowMajor(tail[j]) {
        assert tail[i] == cells[i + 1] && tail[j] == cells[j + 1];
      }
      OpenAmongKeepsOrder(board, tail);
      var rest := OpenAmong(board, tail);
      assert forall i :: 0 <= i < |rest| ==> RowMajor(cells[0]) < RowMajor(rest[i]) by {
        if tail != [] {
          assert RowMajor(cells[0]) < RowMajor(cells[1]);
        }
      }
      if IsEmpty(board, cells[0]) {
        var r := [cells[0]] + rest;
        assert r == OpenAmong(board, cells);
        forall i, j | 0 <= i < j < |r| ensures RowMajor(r[i]) < RowMajor(r[j]) {
          assert r[j] == rest[j - 1];
          if i > 0 {
            assert r[i] == rest[i - 1];
          }
        }
      }
    }
  }

  /** All open squares of the board, in row-by-row order: the squares the
      nested loop over rows and columns visits and finds open. */
  function Empties(board: Board): seq<Path>
  {
    OpenAmong(board, AllPaths)
  }

  /** The list holds exactly the open squares, in increasing row-by-row
      order. */
  lemma EmptiesListsOpenSquares(board: Board)
    ensures forall i :: 0 <= i < |Empties(board)| ==> IsEmpty(board, Empties(board)[i])
    ensures Increasing(Empties(board))
    ensures forall p: Path :: IsEmpty(board, p) ==> p in Empties(board)
  {
    AllPathsInOrder();
    OpenAmongFilters(board, AllPaths);
    OpenAmongKeepsOrder(board, AllPaths);
    OpenAmongOfAll(board, AllPaths);
  }

  lemma OpenAmongOfAll(board: Board, cells: seq<Path>)
    requires forall p: Path :: p in cells
    ensures forall p: Path :: IsEmpty(board, p) ==> p in OpenAmong(board, cells)
  {
    OpenAmongFilters(board, cells);
    forall p: Path | IsEmpty(board, p) ensures p in OpenAmong(board, cells) {
      assert p in cells;
      var i :| 0 <= i < |cells| && cells[i] == p;
    }
  }

  /** A mark fills a whole row, a whole column or a whole diagonal: the
      geometric meaning of a win, independent of the scan. */
  ghost predicate RowFilled(board: Board, i: Index, m: Move)
  {
    forall j: Index :: SquareAt(board, Path(i, j)) == Some(m)
  }

  ghost predicate ColumnFilled(board: Board, j: Index, m: Move)
  {
    forall i: Index :: SquareAt(board, Path(i, j)) == Some(m)
  }

  ghost predicate ThreeInARow(board: Board, m: Move)
  {
    || (exists i: Index :: RowFilled(board, i, m))
    || (exists j: Index :: ColumnFilled(board, j, m))
    || (forall i: Index, j: Index :: i == j ==> SquareAt(board, Path(i, j)) == Some(m))
    || (forall i: Index, j: Index :: i + j == 2 ==> SquareAt(board, Path(i, j)) == Some(m))
  }

  /** Every line of the scan is filled with `m` exactly when it is a row, a
      column or a diagonal of `m`s. */
  lemma ScanCoversAllLines(board: Board, m: Move)
    ensures ThreeInARow(board, m) <==> exists k :: 0 <= k < |ScanOrder| && FilledWith(board, ScanOrder[k], m)
  {
    if ThreeInARow(board, m) {
      if i: Index :| RowFilled(board, i, m) {
        assert ScanOrder[2 * i] == RowLine(i);
        assert FilledWith(board, ScanOrder[2 * i], m);
      } else if j: Index :| ColumnFilled(board, j, m) {
        assert ScanOrder[2 * j + 1] == ColumnLine(j);
        assert FilledWith(board, ScanOrder[2 * j + 1], m);
      } else if forall i: Index, j: Index :: i == j ==> SquareAt(board, Path(i, j)) == Some(m) {
        assert SquareAt(board, Path(0, 0)) == Some(m);
        assert SquareAt(board, Path(1, 1)) == Some(m);
        assert SquareAt(board, Path(2, 2)) == Some(m);
        assert FilledWith(board, ScanOrder[6], m);
      } else {
        assert SquareAt(board, Path(0, 2)) == Some(m);
        assert SquareAt(board, Path(1, 1)) == Some(m);
        assert SquareAt(board, Path(2, 0)) == Some(m);
        assert FilledWith(board, ScanOrder[7], m);
      }
    }
    if k :| 0 <= k < |ScanOrder| && FilledWith(board, ScanOrder[k], m) {
      if k < 6 {
        var i: Index := k / 2;
        if k % 2 == 0 {
          assert ScanOrder[k] == RowLine(i);
          assert RowFilled(board, i, m);
        } else {
          assert ScanOrder[k] == ColumnLine(i);
          assert ColumnFilled(board, i, m);
        }
      } else if k == 6 {
        assert forall i: Index, j: Index :: i == j ==> SquareAt(board, Path(i, j)) == Some(m);
      } else {
        assert forall i: Index, j: Index :: i + j == 2 ==> SquareAt(board, Path(i, j)) == Some(m);
      }
    }
  }

  /** The winner reported is the owner of a row, column or diagonal; there is
      none exactly when neither mark has one; and when only one mark has one,
      its owner is reported. */
  lemma WinnerMatchesThreeInARow(board: Board)
    ensures GetBoardWinner(board).None? <==> !ThreeInARow(board, X) && !ThreeInARow(board, O)
    ensures GetBoardWinner(board).Some? ==> ThreeInARow(board, PlayerMove(GetBoardWinner(board).value))
    ensures ThreeInARow(board, X) && !ThreeInARow(board, O) ==> GetBoardWinner(board) == Some(Human)
    ensures ThreeInARow(board, O) && !ThreeInARow(board, X) ==> GetBoardWinner(board) == Some(Computer)
  {
    ScanCoversAllLines(board, X);
    ScanCoversAllLines(board, O);
    WinningSquaresFirstComplete(board);
    var w := GetWinningBoardSquares(board);
    if w.Some? {
      var k: nat :| FirstWinningFrom(board, 0, k) && ScanOrder[k] == w.value;
      assert FilledWith(board, ScanOrder[k], PlayerMove(GetBoardWinner(board).value));
    } else {
      forall k, m: Move | 0 <= k < |ScanOrder| ensures !FilledWith(board, ScanOrder[k], m) {
        assert !IsWinningLine(board, ScanOrder[k]);
      }
    }
  }

  /** Every square holding `m` on `b1` holds `m` on `b2`. */
  ghost predicate MarksKept(b1: Board, b2: Board, m: Move)
  {
    forall p: Path :: SquareAt(b1, p) == Some(m) ==> SquareAt(b2, p) == Some(m)
  }

  /** Adding marks of `m` (and changing nothing that holds `m`) never undoes a
      row, column or diagonal of `m`. */
  lemma ThreeInARowMonotone(b1: Board, b2: Board, m: Move)
    requires MarksKept(b1, b2, m)
    requires ThreeInARow(b1, m)
    ensures ThreeInARow(b2, m)
  {
    if i: Index :| RowFilled(b1, i, m) {
      assert RowFilled(b2, i, m);
    } else if j: Index :| ColumnFilled(b1, j, m) {
      assert ColumnFilled(b2, j, m);
    } else if forall i: Index, j: Index :: i == j ==> SquareAt(b1, Path(i, j)) == Some(m) {
      assert forall i: Index, j: Index :: i == j ==> SquareAt(b2, Path(i, j)) == Some(m);
    } else {
      assert forall i: Index, j: Index :: i + j == 2 ==> SquareAt(b2, Path(i, j)) == Some(m);
    }
  }

  /** Writing a mark on an open square keeps every mark already on the
      board, and adds no mark of any other kind. */
  lemma MarksAfterWrite(board: Board, p: Path, m: Move, n: Move)
    requires IsEmpty(board, p)
    ensures MarksKept(board, GetUpdatedBoard(board, p, m), n)
    ensures n != m ==> MarksKept(GetUpdatedBoard(board, p, m), board, n)
  {
  }

  /** Two boards with the same state on every square are the same board. */
  lemma SameSquaresSameBoard(b1: Board, b2: Board)
    requires forall p: Path :: SquareAt(b1, p) == SquareAt(b2, p)
    ensures b1 == b2
  {
    forall i: Index
      ensures b1[i] == b2[i]
    {
      forall j: Index
        ensures b1[i][j] == b2[i][j]
      {
        assert SquareAt(b1, Path(i, j)) == SquareAt(b2, Path(i, j));
      }
    }
    assert b1[0] == b2[0] && b1[1] == b2[1] && b1[2] == b2[2];
  }
}
