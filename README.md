# Tic-tac-toe engine with a minimax computer player

This project models, in Dafny, the engine of a console tic-tac-toe game
(`gametictactoe.py`). The human plays `X`, the computer plays `O`, and the
board is a 3×3 grid of cells. Each cell is empty (`' '`), `X` or `O`.

The model has two modules.

- **`Board`** (`board.dfy`) is the board layer.
  - The game mutates one board in place. Here that board is an `array2<Cell>` of size 3×3.
  - `Snapshot` reads the array as a `Grid` value: three rows of three cells.
  - `Place` is the value form of `board[r][c] = mark`.
  - The queries are functions on `Grid`: `IsValidMove`, `CheckWin` and `IsBoardFull`.
  - `create_board` allocates a fresh array (`CreateBoard`).
  - `get_available_moves` is a method with the same nested loops as the source (`GetAvailableMoves`). It is proved equal to the specification `AvailableMoves`: the empty cells, in row-major order.
  - `CheckWin` is proved equivalent to a separate table of the eight winning lines, `WinLines`.
- **`Selector`** (`selector.dfy`) is the move selector.
  - `Evaluate` is the static score.
  - `MinimaxValue` is the value the recursive search computes, written as a ghost function. Its loop over moves is the fold `Extremum`.
  - `Minimax` is the search itself. It places a trial mark on the shared array, recurses through `Trial`, and clears the cell again. It is proved to return `MinimaxValue` of the board it was given, and to leave every cell as it found it.
  - `FindBestMove` does the same for the computer's candidate moves. It is proved to return `BestMove`, the specification of its strict-`>` selection loop.
  - Lemmas characterise `MinimaxValue`: its terminal cases, the extremum at open nodes, and its bounds. Other lemmas characterise the chosen move: None exactly on a full board, otherwise a valid move of maximal score, and the first such move in the shuffled order.

Three modelling choices:

- **Infinities.** The search's `-math.inf` and `math.inf` starting values become `None` in an `Option<int>`. `max` and `min` against them simply take the first score (`Improve`). `MinimaxBounds` shows why nothing is lost: every value lies within `10 + depth + (moves left)` of zero. In `find_best_move`, the pair `best_score = -inf`, `best_move = None` is one `Option<Scored>`, since the two are `None` at the same time.
- **Shuffling.** `random.shuffle(moves)` becomes an index permutation `perm`, which the caller passes in. `FindBestMove` applies it to the list that `GetAvailableMoves` returned (`Shuffle`).
- **Termination.** The search terminates because each trial placement removes exactly one available move (`PlaceRemovesMove`). The decreasing measure is the number of empty cells.

Where the source's comment and its code disagree, the model follows the code:

- **Depth adjustment.** The code returns `score - depth` at maximizing nodes and `score + depth` at minimizing nodes (gametictactoe.py:87). The comment at gametictactoe.py:86 says the adjustment prioritises faster wins ('memprioritaskan kemenangan lebih cepat'). It does the opposite.
  - `find_best_move` calls `minimax` at depth 0 for the player to move. A computer win is seen at a minimizing node, so an immediate win scores 10 (`ImmediateWinScoresTen`). A win forced two plies later scores at least 12 (`WinTwoPliesLaterScoresTwelve`).
  - So when both kinds of move exist, the computer never takes the immediate win, under any shuffle (`SlowerWinOutranksImmediateWin`).
  - The same sign rule makes the player's wins score `-10 - depth` at maximizing nodes, so later losses count as worse.
The model also states, rather than excludes, one edge case:

- **Full board.** `find_best_move` on a full board returns `None` (gametictactoe.py:129). The model states this as part of the contract (`FindBestMoveChoice`) instead of forbidding the call.

## Model

| member | source | states |
|---|---|---|
| Board.CreateBoard | gametictactoe.py:11-13 | returns a fresh 3×3 board whose every cell is empty, i.e. whose snapshot is the empty grid |
| Board.CheckWin | gametictactoe.py:29-50 | the row, column, diagonal and anti-diagonal checks hold exactly when one of the eight lines of the `WinLines` table is uniform in the mark |
| Board.LinesOfTable | gametictactoe.py:32-48 | the eight-line table covers exactly the three rows, three columns and two diagonals that check_win scans |
| Board.IsBoardFull | gametictactoe.py:52-54 | "no row contains the empty cell" holds exactly when no cell of the grid is empty |
| Board.GetAvailableMoves | gametictactoe.py:56-63 | the nested row/column loops return exactly `AvailableMoves` of the board (the empty cells in row-major order) |
| Board.EmptyCellsBeforeSound | gametictactoe.py:58-63 | every collected cell is a valid move scanned so far, and the collected cells are in strictly increasing row-major position |
| Board.AvailableMovesExact | gametictactoe.py:23-27 | a move is in the available list exactly when is_valid_move accepts it; the list has no duplicates and is in row-major order |
| Board.FullIffNoMoves | gametictactoe.py:52-63 | the board is full exactly when the list of available moves is empty |
| Board.UndoRestores | gametictactoe.py:95-97 | placing a mark on an empty cell and then writing EMPTY_CELL back gives the original board |
| Board.PlaceRemovesMove | gametictactoe.py:94-97 | placing a mark on a valid move leaves exactly one available move fewer (the search's termination measure) |
| Board.SnapshotAfterWrite | gametictactoe.py:95 | writing one cell of the board in place changes its value view by exactly that cell |
| Selector.Evaluate | gametictactoe.py:67-76 | 10 exactly when the computer has a line; -10 exactly when it has none and the player has one; 0 exactly when neither has a line (computer checked first) |
| Selector.MinimaxWon | gametictactoe.py:82-87 | a position with a line scores 10 - depth (maximizing) or 10 + depth (minimizing) if the computer has one, else -10 - depth or -10 + depth |
| Selector.MinimaxDraw | gametictactoe.py:88-89 | a position with no line and no empty cell scores 0 at every depth for either side |
| Selector.MinimaxOpenNode | gametictactoe.py:91-106 | an undecided position with moves left is worth at least as much (maximizing) or at most as much (minimizing) as every move's value one ply deeper, and equals one of them |
| Selector.ExtremumIsBest | gametictactoe.py:93-98 | the running max/min over the moves is at least as good as every move's value and as its starting value |
| Selector.ExtremumIsReached | gametictactoe.py:101-106 | the running max/min over the moves is its starting value or the value of one of the moves |
| Selector.MinimaxBounds | gametictactoe.py:91-106 | every minimax value lies between -10 - depth - (moves left) and 10 + depth + (moves left), so the infinite starting values are never returned |
| Selector.Trial | gametictactoe.py:95-97 | placing the mark, calling minimax and writing EMPTY_CELL back returns the value of the board with the mark placed and leaves the board as it was |
| Selector.Minimax | gametictactoe.py:78-106 | returns `MinimaxValue` of the board on entry for the given depth and side, and leaves every cell as it was |
| Selector.ShuffleSameMoves | gametictactoe.py:116-117 | the shuffled list is a permutation of the available moves: the same moves with the same multiplicities |
| Selector.BestMoveIsFirstBest | gametictactoe.py:119-129 | the selection loop returns None exactly for an empty list, else a move at a position whose score no later move exceeds and no earlier move equals |
| Selector.FindBestMoveChoice | gametictactoe.py:108-129 | for any shuffle: None exactly when the board is full (no available move); otherwise a valid move whose score is at least every available move's score, the first such in the shuffled order |
| Selector.FindBestMove | gametictactoe.py:108-129 | returns the move `BestMove` selects from the shuffled available moves and leaves every cell of the board as it was |
| Selector.ShuffleOnlyBreaksTies | gametictactoe.py:115-117 | any two shuffles yield moves with the same score: the shuffle only changes which of the tied best moves is returned |
| Selector.ImmediateWinScoresTen | gametictactoe.py:120-122 | a move that completes a computer line scores exactly 10 |
| Selector.WinTwoPliesLaterScoresTwelve | gametictactoe.py:86-87 | a move after which every player reply (none of them winning) lets the computer complete a line scores at least 12 |
| Selector.SlowerWinOutranksImmediateWin | gametictactoe.py:86-87 | a move forcing a win two plies later scores higher than an immediate win, so find_best_move never returns the immediate win when both exist |

## Left out

- `print_board` and `play_game` (gametictactoe.py:15-21, 133-193) are not modelled. They are console output, `input()` parsing with its retry loop, and turn alternation. `IsValidMove` is modelled because play_game calls it; its behaviour is stated through `AvailableMovesExact`.
- `random.shuffle` is not modelled as a random source. The model takes an arbitrary permutation of the available moves, which the caller supplies. Every statement holds for every permutation.
- The float infinities of `math` become `Option` values. `MinimaxBounds` shows that integer scores never reach them.
- `WIN_LENGTH` (gametictactoe.py:9) is unused by the code, so it has no counterpart.
- Marks are a three-valued datatype (`Empty`, `X`, `O`), not arbitrary strings. The board is always 3×3, as `create_board` builds it. The Python functions accept any list of lists and any mark, but the game only ever passes these.
- The claims that the computer never loses, and that the empty board has value 0, are not proved. Proving them means evaluating the whole game tree (hundreds of thousands of positions), which the verifier cannot do in practice.
- Selector.FindBestMove: its contract ties the result to `BestMove` and the board frame. The characterisation (validity, maximal score, None on a full board) is proved separately, about `BestMove`, in `FindBestMoveChoice`.
