// The board layer of the tic-tac-toe engine: the 3x3 grid that the game
// mutates in place, a value view of it, and the queries on that value.

module Board {

  /** What a cell holds: nothing, the player's 'X' or the computer's 'O'. */
  datatype Cell = Empty | X | O

  const BoardSize: int := 3
  const PlayerMark: Cell := X
  const AiMark: Cell := O
  const EmptyCell: Cell := Empty

  /** A value view of the board: three rows of three cells. */
  type Grid = g: seq<seq<Cell>> | |g| == 3 && forall r | 0 <= r < 3 :: |g[r]| == 3
    witness [[Empty, Empty, Empty], [Empty, Empty, Empty], [Empty, Empty, Empty]]

  /** A (row, column) pair; it may lie outside the board. */
  datatype Move = Move(row: int, col: int)

  predicate InRange(m: Move) {
    0 <= m.row < BoardSize && 0 <= m.col < BoardSize
  }

  /** Position of a cell in row-major order. */
  function Index(m: Move): int {
    3 * m.row + m.col
  }

  /** The cell at row-major position k, for 0 <= k < 9. */
  function CellAt(k: int): Move {
    if k < 3 then Move(0, k) else if k < 6 then Move(1, k - 3) else Move(2, k - 6)
  }

  const EmptyGrid: Grid := [[Empty, Empty, Empty], [Empty, Empty, Empty], [Empty, Empty, Empty]]

  /** Two grids with the same cells are the same grid. */
  lemma GridsEqual(g: Grid, h: Grid)
    requires forall r, c | 0 <= r < BoardSize && 0 <= c < BoardSize :: g[r][c] == h[r][c]
    ensures g == h
  {
    forall r | 0 <= r < BoardSize
      ensures g[r] == h[r]
    {
      assert g[r][0] == h[r][0] && g[r][1] == h[r][1] && g[r][2] == h[r][2];
    }
  }

  // ---------------------------------------------------------------------
  // The board in place

  predicate IsBoard(board: array2<Cell>) {
    board.Length0 == BoardSize && board.Length1 == BoardSize
  }

  /** The current contents of an in-place board as a grid value. */
  function Snapshot(board: array2<Cell>): (g: Grid)
    requires IsBoard(board)
    reads board
    ensures forall r, c | 0 <= r < BoardSize && 0 <= c < BoardSize :: g[r][c] == board[r, c]
  {
    [[board[0, 0], board[0, 1], board[0, 2]],
     [board[1, 0], board[1, 1], board[1, 2]],
     [board[2, 0], board[2, 1], board[2, 2]]]
  }

  /** create_board: a fresh 3x3 board whose every cell is empty. */
  method CreateBoard() returns (board: array2<Cell>)
    ensures fresh(board) && IsBoard(board)
    ensures forall r, c | 0 <= r < BoardSize && 0 <= c < BoardSize :: board[r, c] == EmptyCell
    ensures Snapshot(board) == EmptyGrid
  {
    board := new Cell[BoardSize, BoardSize]((r, c) => EmptyCell);
    GridsEqual(Snapshot(board), EmptyGrid);
  }

  /** `board[r][c] = mark` on the value view. */
  function Place(g: Grid, m: Move, mark: Cell): (h: Grid)
    requires InRange(m)
    ensures h[m.row][m.col] == mark
    ensures forall r, c | 0 <= r < BoardSize && 0 <= c < BoardSize && (r != m.row || c != m.col) ::
      h[r][c] == g[r][c]
  {
    g[m.row := g[m.row][m.col := mark]]
  }

  /** Writing a cell of an in-place board moves its snapshot by Place. */
  lemma SnapshotAfterWrite(board: array2<Cell>, g: Grid, m: Move, mark: Cell)
    requires IsBoard(board) && InRange(m)
    requires board[m.row, m.col] == mark
    requires forall r, c | 0 <= r < BoardSize && 0 <= c < BoardSize && (r != m.row || c != m.col) ::
      board[r, c] == g[r][c]
    ensures Snapshot(board) == Place(g, m, mark)
  {
    GridsEqual(Snapshot(board), Place(g, m, mark));
  }

  /** Placing a mark on an empty cell and clearing it again gives back the grid. */
  lemma UndoRestores(g: Grid, m: Move, mark: Cell)
    requires InRange(m) && g[m.row][m.col] == EmptyCell
    ensures Place(Place(g, m, mark), m, EmptyCell) == g
  {
    GridsEqual(Place(Place(g, m, mark), m, EmptyCell), g);
  }

  // ---------------------------------------------------------------------
  // Queries

  /**
   * is_valid_move: the coordinates are on the board and the cell is empty.
   * A valid move is one of the nine cells that the row-major scan visits.
   */
  function IsValidMove(g: Grid, row: int, col: int): bool {
    0 <= row < BoardSize && 0 <= col < BoardSize && g[row][col] == EmptyCell
  }

  /** The eight lines that win: three rows, three columns, two diagonals. */
  const WinLines: seq<seq<Move>> := [
    [Move(0, 0), Move(0, 1), Move(0, 2)],
    [Move(1, 0), Move(1, 1), Move(1, 2)],
    [Move(2, 0), Move(2, 1), Move(2, 2)],
    [Move(0, 0), Move(1, 0), Move(2, 0)],
    [Move(0, 1), Move(1, 1), Move(2, 1)],
    [Move(0, 2), Move(1, 2), Move(2, 2)],
    [Move(0, 0), Move(1, 1), Move(2, 2)],
    [Move(0, 2), Move(1, 1), Move(2, 0)]
  ]

  /** Every cell of the line is on the board and holds mark. */
  predicate Fills(g: Grid, line: seq<Move>, mark: Cell) {
    forall k | 0 <= k < |line| :: InRange(line[k]) && g[line[k].row][line[k].col] == mark
  }

  /** Some line of the table is uniform in mark. */
  predicate HasLine(g: Grid, mark: Cell) {
    exists i | 0 <= i < |WinLines| :: Fills(g, WinLines[i], mark)
  }

  predicate RowFilled(g: Grid, r: int, mark: Cell)
    requires 0 <= r < BoardSize
  {
    forall c | 0 <= c < BoardSize :: g[r][c] == mark
  }

  predicate ColumnFilled(g: Grid, c: int, mark: Cell)
    requires 0 <= c < BoardSize
  {
    forall r | 0 <= r < BoardSize :: g[r][c] == mark
  }

  predicate DiagonalFilled(g: Grid, mark: Cell) {
    forall i | 0 <= i < BoardSize :: g[i][i] == mark
  }

  predicate AntiDiagonalFilled(g: Grid, mark: Cell) {
    forall i | 0 <= i < BoardSize :: g[i][BoardSize - 1 - i] == mark
  }

  /**
   * check_win: rows first, then columns, then the main diagonal, then the
   * anti-diagonal. It holds exactly when one of the eight lines is uniform in mark.
   */
  function CheckWin(g: Grid, mark: Cell): (won: bool)
    ensures won <==> HasLine(g, mark)
  {
    LinesOfTable(g, mark);
    (exists r | 0 <= r < BoardSize :: RowFilled(g, r, mark))
    || (exists c | 0 <= c < BoardSize :: ColumnFilled(g, c, mark))
    || DiagonalFilled(g, mark)
    || AntiDiagonalFilled(g, mark)
  }

  lemma FillsThree(g: Grid, line: seq<Move>, mark: Cell)
    requires |line| == 3 && InRange(line[0]) && InRange(line[1]) && InRange(line[2])
    ensures Fills(g, line, mark) <==>
      g[line[0].row][line[0].col] == mark && g[line[1].row][line[1].col] == mark
      && g[line[2].row][line[2].col] == mark
  {
  }

  /** Line i of the table, for i < 3, is row i; for 3 <= i < 6 it is column i - 3. */
  lemma TableLine(g: Grid, mark: Cell, i: int)
    requires 0 <= i < |WinLines|
    ensures i < 3 ==> (Fills(g, WinLines[i], mark) <==> RowFilled(g, i, mark))
    ensures 3 <= i < 6 ==> (Fills(g, WinLines[i], mark) <==> ColumnFilled(g, i - 3, mark))
    ensures i == 6 ==> (Fills(g, WinLines[i], mark) <==> DiagonalFilled(g, mark))
    ensures i == 7 ==> (Fills(g, WinLines[i], mark) <==> AntiDiagonalFilled(g, mark))
  {
    FillsThree(g, WinLines[i], mark);
  }

  /** The table of lines covers the rows, the columns and both diagonals, and nothing else. */
  lemma LinesOfTable(g: Grid, mark: Cell)
    ensures HasLine(g, mark) <==>
      (exists r | 0 <= r < BoardSize :: RowFilled(g, r, mark))
      || (exists c | 0 <= c < BoardSize :: ColumnFilled(g, c, mark))
      || DiagonalFilled(g, mark)
      || AntiDiagonalFilled(g, mark)
  {
    if HasLine(g, mark) {
      var i :| 0 <= i < |WinLines| && Fills(g, WinLines[i], mark);
      TableLine(g, mark, i);
      if i < 3 {
        assert RowFilled(g, i, mark);
      } else if i < 6 {
        assert ColumnFilled(g, i - 3, mark);
      }
    }
    if r :| 0 <= r < BoardSize && RowFilled(g, r, mark) {
      TableLine(g, mark, r);
    } else if c :| 0 <= c < BoardSize && ColumnFilled(g, c, mark) {
      TableLine(g, mark, c + 3);
    } else if DiagonalFilled(g, mark) {
      TableLine(g, mark, 6);
    } else if AntiDiagonalFilled(g, mark) {
      TableLine(g, mark, 7);
    }
  }

  /** is_board_full: no row contains the empty cell. */
  function IsBoardFull(g: Grid): (full: bool)
    ensures full <==> forall r, c | 0 <= r < BoardSize && 0 <= c < BoardSize :: g[r][c] != EmptyCell
  {
    forall r | 0 <= r < BoardSize :: EmptyCell !in g[r]
  }

  /** The empty cells among the first k cells in row-major order, in that order. */
  ghost function EmptyCellsBefore(g: Grid, k: nat): seq<Move>
    requires k <= 9
  {
    if k == 0 then []
    else
      var m := CellAt(k - 1);
      EmptyCellsBefore(g, k - 1) + (if g[m.row][m.col] == EmptyCell then [m] else [])
  }

  /** The cells EmptyCellsBefore collects are empty cells before k, in increasing order. */
  lemma {:induction false} EmptyCellsBeforeSound(g: Grid, k: nat)
    requires k <= 9
    ensures forall i | 0 <= i < |EmptyCellsBefore(g, k)| ::
      IsValidMove(g, EmptyCellsBefore(g, k)[i].row, EmptyCellsBefore(g, k)[i].col)
      && Index(EmptyCellsBefore(g, k)[i]) < k
    ensures forall i, j | 0 <= i < j < |EmptyCellsBefore(g, k)| ::
      Index(EmptyCellsBefore(g, k)[i]) < Index(EmptyCellsBefore(g, k)[j])
  {
    if k > 0 {
      EmptyCellsBeforeSound(g, k - 1);
    }
  }

  /** The moves get_available_moves promises: every empty cell, row by row. */
  ghost function AvailableMoves(g: Grid): (moves: seq<Move>)
    ensures forall i | 0 <= i < |moves| :: IsValidMove(g, moves[i].row, moves[i].col)
  {
    EmptyCellsBeforeSound(g, 9);
    EmptyCellsBefore(g, 9)
  }

  lemma {:induction false} EmptyCellsBeforeComplete(g: Grid, k: nat, m: Move)
    requires k <= 9
    requires IsValidMove(g, m.row, m.col) && Index(m) < k
    ensures m in EmptyCellsBefore(g, k)
  {
    if Index(m) == k - 1 {
      assert CellAt(k - 1) == m;
    } else {
      EmptyCellsBeforeComplete(g, k - 1, m);
    }
  }

  /**
   * get_available_moves lists exactly the valid moves, each once, in
   * row-major order.
   */
  lemma AvailableMovesExact(g: Grid)
    ensures forall m: Move :: m in AvailableMoves(g) <==> IsValidMove(g, m.row, m.col)
    ensures forall i, j | 0 <= i < j < |AvailableMoves(g)| ::
      Index(AvailableMoves(g)[i]) < Index(AvailableMoves(g)[j]) && AvailableMoves(g)[i] != AvailableMoves(g)[j]
  {
    EmptyCellsBeforeSound(g, 9);
    forall m: Move | IsValidMove(g, m.row, m.col)
      ensures m in AvailableMoves(g)
    {
      EmptyCellsBeforeComplete(g, 9, m);
    }
  }

  /** The board is full exactly when there is no move left. */
  lemma FullIffNoMoves(g: Grid)
    ensures IsBoardFull(g) <==> AvailableMoves(g) == []
  {
    AvailableMovesExact(g);
    if !IsBoardFull(g) {
      var r, c :| 0 <= r < BoardSize && 0 <= c < BoardSize && g[r][c] == EmptyCell;
      assert Move(r, c) in AvailableMoves(g);
    }
    if AvailableMoves(g) != [] {
      var m := AvailableMoves(g)[0];
      assert g[m.row][m.col] == EmptyCell;
    }
  }

  lemma {:induction false} PlaceCount(g: Grid, m: Move, mark: Cell, k: nat)
    requires IsValidMove(g, m.row, m.col) && mark != EmptyCell
    requires k <= 9
    ensures |EmptyCellsBefore(Place(g, m, mark), k)|
      == |EmptyCellsBefore(g, k)| - (if Index(m) < k then 1 else 0)
  {
    if k > 0 {
      PlaceCount(g, m, mark, k - 1);
      var n := CellAt(k - 1);
      assert n == m <==> Index(m) == k - 1;
    }
  }

  /** Placing a mark on a valid move leaves exactly one move fewer. */
  lemma PlaceRemovesMove(g: Grid, m: Move, mark: Cell)
    requires IsValidMove(g, m.row, m.col) && mark != EmptyCell
    ensures |AvailableMoves(Place(g, m, mark))| == |AvailableMoves(g)| - 1
  {
    PlaceCount(g, m, mark, 9);
  }

  lemma EmptyCellsBeforeStep(g: Grid, m: Move)
    requires InRange(m)
    ensures EmptyCellsBefore(g, Index(m) + 1)
      == EmptyCellsBefore(g, Index(m)) + (if g[m.row][m.col] == EmptyCell then [m] else [])
  {
    var k := Index(m) + 1;
    assert 0 < k <= 9 && k - 1 == Index(m);
    assert CellAt(k - 1) == m;
  }

  /** get_available_moves: scan rows, then columns, and collect the empty cells. */
  method GetAvailableMoves(board: array2<Cell>) returns (moves: seq<Move>)
    requires IsBoard(board)
    ensures moves == AvailableMoves(Snapshot(board))
  {
    ghost var g := Snapshot(board);
    moves := [];
    for r := 0 to BoardSize
      invariant moves == EmptyCellsBefore(g, 3 * r)
    {
      for c := 0 to BoardSize
        invariant moves == EmptyCellsBefore(g, 3 * r + c)
      {
        ghost var before := moves;
        EmptyCellsBeforeStep(g, Move(r, c));
        if board[r, c] == EmptyCell {
          moves := moves + [Move(r, c)];
        }
        assert moves == before + (if g[r][c] == EmptyCell then [Move(r, c)] else []);
      }
    }
  }
}
