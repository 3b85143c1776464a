# Connect-N board engine and computer agent

A Dafny model of the game core of a Connect-N program written in C: the board
engine of `board.c` and the recursive search and move loop of
`computer_agent.c`.

- `pieces.dfy`, module `Pieces`: the cell colours (`Empty`, `Blue`, `Yellow`,
  the C `player_t`), an `Option` type, and the agent's choice of opponent.
- `grid.dfy`, module `Grid`: the board.
  - A board is an immutable `Board(height, width, run, cells)`.
  - `cells` holds `width*height` entries in row-major order, row 0 at the bottom.
  - The board getters `board_get_height`, `board_get_width` and `board_get_run` are the datatype's fields.
  - board_play and board_unplay return a `Change(ok, board)`: the C boolean result and the board after the call.
  - board_create, board_duplicate and board_clear always return true in the C, so their models return the board alone.
  - The module covers creation, the bounds-checked read, move legality, the gravity drop, undo, duplicate and clear.
- `win_scan.dfy`, module `WinScan`: `board_has_winner`.
  - The C function sweeps six families of straight lines in source order.
  - It scans each line with the `piece_temp`/`win_counter` counter, and the first run found decides.
  - The model proves this scan equivalent to a direct definition: `run` equal non-empty cells in a row, column or diagonal.
- `minimax.dfy`, module `Minimax`: `optimal_move` and `computer_agent_play`.
  - The model splits the `for col` loop of `optimal_move` into two parts:
    - the list of children it explores (`Children`, `ChildScores`), each searched on a duplicate of the board;
    - the accumulator part of the loop (`ColumnLoop`): the running `result`, `max_result` and `move`.
  - The search is a pure function. The loop body does not depend on its earlier iterations except through the accumulators and through `flip_player_counter`, which each legal column bumps once. `Children` hands the k-th child the counter after its k+1 bumps, `counter + k + 1`, so this split computes the same values.
  - Termination follows from the number of empty cells. Each recursive call gets a board with one more piece. The one exception is a top-level drop of `Empty`, which leaves the board unchanged; the recursion then descends from the top level to a non-top node.

Some properties follow the code and not its comments:
- `board_unplay` clears the mirrored row (see Findings).
- A run is only ever detected when `run >= 2`.
- On a board of height 0, `height - 1` wraps around as an unsigned value, so every read of the "top row" fails.
  - `board_can_play_move` is therefore true for every column below `width`.
  - `board_can_play` is false.
  - `board_play` fails.

## Model

| member | source | states |
|---|---|---|
| Grid.Create | board.c:15-44 | The new board has the given height, width and run and exactly width*height cells. Cell i is initial[i], or Empty when there is no initial layout. |
| Grid.ToUnsigned | computer_agent.c:115 | Storing an int into an unsigned int keeps a value in [0, UINT_MAX] and turns -1 into UINT_MAX. |
| Grid.TopRow | board.c:122 | The row read as the top one (here and at board.c:156) is `height - 1` taken as an unsigned value. It lies on the board exactly when the board has at least one row. |
| Grid.Get | board.c:474-487 | The read fails exactly when row >= height or column >= width. Otherwise it returns cell row*width+column. |
| Grid.CreateThenGet | board.c:15-44 | Reading a freshly created board fails outside the grid. Inside, it returns entry row*width+column of the initial layout, or Empty. |
| Grid.GetDeterminesBoard | board.c:474-487 | Two boards with the same dimensions that agree on every read are equal. So Get observes the whole state. |
| Grid.CanPlayMove | board.c:139-168 | False for column >= width. Otherwise false exactly when the board has rows and cell (height-1, column) holds a piece. |
| Grid.CanPlayFrom | board.c:120-130 | The top-row scan from a given column finds an empty top cell exactly when the board has rows and some column from there on passes CanPlayMove. |
| Grid.CanPlay | board.c:113-133 | True exactly when the board has at least one row and some column passes CanPlayMove. |
| Grid.LowestEmptyFrom | board.c:83-102 | The upward scan of a column returns the first empty row at or above its start, with every row below it occupied. It returns nothing when every row from the start up is occupied. |
| Grid.Play | board.c:72-107 | Succeeds exactly when CanPlayMove holds and height >= 1. On failure the board is unchanged. On success only the lowest empty cell of the column changes, and it becomes `player`. A coloured drop lowers the empty count by one. |
| Grid.PlayKeepsStacked | board.c:72-107 | A drop keeps every column a stack, with no piece above an empty cell. |
| Grid.TopmostFrom | board.c:191-210 | The downward scan of a column returns the highest occupied row at or below its start, with every row above it empty. It returns nothing when the column is empty up to there. |
| Grid.Unplay | board.c:177-213 | Succeeds exactly when the column is on the board and holds a piece. On failure nothing changes. On success it finds the topmost occupied row h, writes Empty to cell (height-1-h, column), and leaves every other cell unchanged. |
| Grid.UnplayIntended | board.c:172-176 | The documented undo: the same success condition as Unplay, but it clears the topmost piece itself and leaves every other cell unchanged. |
| Grid.PlayThenUnplayAsWritten | board.c:187-208 | On a stacked board, a coloured drop followed by board_unplay restores the board exactly when the dropped row h satisfies 2h+1 == height. |
| Grid.PlayThenUnplayAsWrittenAnyBoard | board.c:187-208 | On any board, columns with gaps included, a coloured drop followed by board_unplay restores the board exactly when the mirror of the topmost occupied row after the drop is the row where the piece landed. |
| Grid.UnplayAsWrittenKeepsPiece | board.c:187-208 | On an empty board 1 wide and 2 tall, a Blue drop and then board_unplay reports success, but the Blue piece stays. |
| Grid.PlayThenUnplayIntendedRestores | board.c:172-176 | On a stacked board, a coloured drop followed by the documented undo gives back the original board. |
| Grid.Duplicate | board.c:221-233 | The copy equals the original: same dimensions and identical cells. |
| Grid.Clear | board.c:491-502 | Every cell becomes Empty and the dimensions stay. The result is the board that creation without a layout gives. |
| WinScan.ScanLine | board.c:261-287 | The per-line counter scan finds a colour exactly when run >= 2 and the line holds run equal non-empty cells in a row. The colour is that of the earliest such run. |
| WinScan.ScanFromFindsFirstRun | board.c:263-283 | The loop invariant of the counter scan. From any consistent counter state, the rest of the scan finds a run exactly when the line has one, and reports the colour of the earliest. |
| WinScan.ScanFrom | board.c:263-283 | The `piece_temp`/`win_counter` scan of one line never reports Empty. With run below 2 the counter, which is compared only after an increment from 1, never fires. |
| WinScan.Rows | board.c:261-263 | One line per row, starting at column 0 and running right to the board's edge. |
| WinScan.Columns | board.c:294-296 | One line per column, starting at row 0 and running up to the board's edge. |
| WinScan.UpRightFromLeft | board.c:327-330 | One up-right diagonal per row h, starting at (h, 0) and running until the next step leaves the board. |
| WinScan.UpRightFromBottom | board.c:359-362 | One up-right diagonal for each column from 1 to width-1, starting in row 0 and running until the next step leaves the board. |
| WinScan.UpLeftFromRight | board.c:394-397 | One up-left diagonal per row h, starting at (h, width-1) and running until the next step leaves the board. |
| WinScan.UpLeftFromBottom | board.c:426-429 | One up-left diagonal per column w, starting at (0, w) and running until the next step leaves the board. The unsigned compare ends the line when the column would become -1. |
| WinScan.FirstWin | board.c:259-454 | The sweep over the lines in order reports a colour exactly when some line has a run. The colour comes from the first such line. |
| WinScan.Lines | board.c:259-454 | Every line of the six sweeps stays on the board. |
| WinScan.SweepMatchesBoard | board.c:259-454 | The sweep finds a run exactly when some row, column, up-right or up-left diagonal of the board holds run equal non-empty cells. The colour it reports is the colour of such a run. |
| WinScan.BoardRunIsLineRun | board.c:259-454 | Every run on the board, in any of the four directions, lies on one of the swept lines, including the corner diagonals. |
| WinScan.Code | board.c:248-250 | The int returned for a verdict is 1 exactly for Win, -1 exactly for Tie and 0 exactly for Continue. |
| WinScan.HasWinner | board.c:246-467 | Win exactly when run >= 2 and the board holds a run; its colour is that of a run and it is the run found first in sweep order. Otherwise Continue when CanPlay holds, and Tie when it does not. |
| WinScan.NotTieHasRows | board.c:457-465 | A board that is not a tie has at least one row. |
| Pieces.Opponent | computer_agent.c:38-39 | The opponent is a colour and differs from `player`; for Empty it is Blue. |
| Minimax.CRem | computer_agent.c:43-47 | C's `%`: the remainder has the sign of the dividend, is smaller than the divisor in magnitude, and completes the truncating division. |
| Minimax.Terminal | computer_agent.c:42-54 | The base cases fire exactly on a tie, or on a win by `player` when the counter is non-negative or even. An odd negative counter matches neither win case. |
| Minimax.OptimalMove | computer_agent.c:30-54 | A board won by `player` scores 100 for an even counter and -100 for an odd one; a tie scores 0, at every level. A non-top node always scores a multiple of 100. |
| Minimax.Children | computer_agent.c:57-80 | The k-th child (from 0) is the k-th legal column. It is played with `player` at the top level and the opponent below, and it hands down counter+k+1. The drop succeeds on the parent board. A coloured drop leaves exactly one empty cell fewer. |
| Minimax.ChildScores | computer_agent.c:65-80 | There is one score per legal column, each a multiple of 100. |
| Minimax.LegalFrom | computer_agent.c:57-59 | The columns the loop enters are exactly those that pass CanPlayMove, in increasing order. |
| Minimax.ColumnLoop | computer_agent.c:57-95 | At the top level the loop returns either the move it started with or one of the columns it visits. |
| Minimax.ColumnLoopSpec | computer_agent.c:75-95 | Once the loop has run over every legal column: below the top level it returns the sum of the child scores; at the top level it returns -1 when there is no legal column, and otherwise the column whose prefix sum first reaches the maximum. An equal later sum keeps the earlier column. |
| Minimax.FoldKeepsHundreds | computer_agent.c:75-80 | Below the top level the loop's result stays a multiple of 100. |
| Minimax.NonTopScoreIsChildSum | computer_agent.c:57-95 | A non-terminal non-top node returns the sum of its children's scores, 0 when no column is legal. |
| Minimax.OtherColourWinIsSearched | computer_agent.c:42-54 | A board won by a colour other than `player` matches no base case and is searched as any other node. |
| Minimax.TopLevelPicksFirstBestColumn | computer_agent.c:77-93 | A non-terminal top-level call returns -1 with no legal column. Otherwise it returns the legal column at which the running prefix sum last strictly exceeded all earlier ones. |
| Minimax.TopLevelMoveIsLegal | computer_agent.c:57-93 | A non-terminal top-level call returns -1 exactly when no column passes CanPlayMove. Otherwise it returns a column in [0, width) that passes. |
| Minimax.AgentPlay | computer_agent.c:110-124 | When the agent returns, its move is a column that passes CanPlayMove. When it does not return, the search's answer, stored as an unsigned int, fails CanPlayMove. |
| Minimax.AgentPlaysLegalMoveOnOpenBoard | computer_agent.c:110-124 | On a board where play continues, the agent returns on its first pass with the column the top-level search chose. |

## Left out

- board_print: writing to a `FILE*` is I/O.
- board_destroy, `malloc` and `free`, and the memory leaks.
  - Boards are values, so nothing is freed or leaked.
  - Examples of the leaks: the early return in board_can_play_move, and `free(board_temp)` in optimal_move.
- The `< 0` tests on unsigned parameters in board_can_play_move, board_unplay and board_get: they can never be true.
- The `player` argument of board_can_play and board_can_play_move is never read and is not a parameter here.
- The `-INFINITY` double sentinel of `max_result` is `None`. The first legal column always beats it, so no floating point is involved.
- 32-bit wrap-around of the `int` counter and `result` of optimal_move, and of the unsigned product `width * height`. The model uses unbounded integers. The one unsigned conversion that matters, storing the search's `-1` into the agent's unsigned `*move`, is modelled (`ToUnsigned`).
- Grid.Create: requires the initial layout to hold at least width*height cells. The C code reads past a shorter array, which has no defined result.
- Minimax.OptimalMove: its terminal-score postconditions speak only of counters >= 0.
  - The body follows C's truncating `%`: an odd negative counter leaves -1 and matches neither win case.
  - Every counter the agent produces starts at 0 and only grows.
- Minimax.AgentPlay: the retry loop of computer_agent_play never ends when the first pass fails, because the search is deterministic. `None` stands for that non-returning loop.
- The run-time cost of the exponential search. Only termination is proved.
- random_agent.c, and the agent's plumbing: the vtable, `mystrdup`, describe, create and destroy. These are randomness and string and pointer bookkeeping.
- Where the code's own comments and the code disagree, the model follows the code:
  - The comment on board_unplay (board.c:172-176) calls it an undo that makes the board slot empty. As written it clears the mirrored row, so play followed by unplay does not in general restore the board (see Findings).
  - The comment on board_can_play (board.c:110-112) says it tells whether a move can be made. On a board of height 0 every column passes board_can_play_move, but board_can_play is false.

## Findings

| source | as written | input that shows it | evidently intended | confidence | as-written member | corrected member |
|---|---|---|---|---|---|---|
| board.c:187-208 | board_unplay finds the topmost occupied row h by reading cell h*width+column. It then writes Empty to `config[counter]`, where the top-down counter equals (height-1-h)*width+column, the mirrored row. | An empty board with height 2, width 1 and run 2: play column 0 with Blue, then unplay column 0. Unplay returns true, writes Empty to the already empty top cell, and the Blue piece stays. | Clear the cell just read, h*width+column, so that an undo removes the topmost piece and play followed by unplay restores the board. | high; not executed | Grid.PlayThenUnplayAsWritten, Grid.PlayThenUnplayAsWrittenAnyBoard, Grid.UnplayAsWrittenKeepsPiece | Grid.PlayThenUnplayIntendedRestores |
