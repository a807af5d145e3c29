# Tic-tac-toe game logic in Dafny

This project models the game logic of `tictactoe.c`, a console
tic-tac-toe game. A human plays X and the program plays O. The model covers
three parts:

- **The 3x3 board.** `board_data` holds nine `BoardCellColor` characters.
  An empty cell carries the digit '1'..'9' that the human types to select
  it. An occupied cell holds 'X' or 'O'. The model covers cell access,
  legality, conditional placement, copying, the initial labelling, the
  digit-to-cell conversion, free-cell detection and the winner over the
  eight lines.
- **The search `alpha_beta_pruning`.** It is minimax with alpha-beta
  cutoffs. Terminal scores depend on depth. Each node adds a bonus from
  `PREFERENCE_FILTER` (O) or subtracts it (X), using that node's own best
  move. Trial moves are made and unmade on one live board.
- **The move chooser `compute_next_ai_movement`.** It is O's move at the
  top level. The player-colour helpers are modelled too.

The board is a value: a 9-element sequence of `Cell = Empty(selector) | X | O`.
The search is a pair of mutually recursive functions. `AlphaBeta` is one
node. `Scan` is that node's nested move loop. They hand the live board from
one trial to the next, as the program does: write the mark, search, take
back whatever board the child left, and write the saved colour back.
So "the board comes back unchanged" is proved and not assumed. Termination
uses the number of empty cells as its measure.

The model follows the code as written, including these details:

- **Partial cutoff.** The `break` at tictactoe.c:600 and :651 leaves only
  the inner `x` loop. After a cutoff, the first legal cell of each later row
  is still searched. Such a cell can still change `value` and
  `best_movement`, but alpha and beta stay frozen (`Search.CutOffFreezesWindow`).
- **Swapped fields at the top level.** `{ y, x }` at tictactoe.c:489 puts
  the row counter into `.x`. So `compute_next_ai_movement` visits cells in
  column-major order (`Ai.ColumnMajor`). The search visits them row-major
  (`Search.RowMajor`).
- **Index expressions.** The getter reads `y*WIDTH+x` and the setter writes
  `HEIGHT*y+x`. `Board.SetCellColor` states its effect through the getter,
  which proves the two agree on this 3x3 board.
- **Uninitialised `best_movement`.** A node reads `best_movement` without
  assigning it if no child beats the ±1000 sentinel. That read is
  modelled as `Undefined`. `Search.AlphaBetaBounded` proves it never
  happens while every reachable terminal score stays within ±100. Such a
  node's score is within 100 + 20·(free cells). That bound is well inside
  the sentinels.
- **Sentinels.** The move chooser starts `best_score` at -10000
  (tictactoe.c:484). Each search node starts at -1000 for O and at 1000
  for X (tictactoe.c:562, 613). The `break` on a cutoff (tictactoe.c:600,
  651) leaves only the inner loop over x, so the scan resumes at the next
  row.
- **Worked examples.** Module `Scenarios` proves the search's scores on
  one small board, where the move chooser takes the immediate win. On a
  second, full board it proves only that the winner status is a tie.
- **`abort()` and undefined reads.** A call to `abort()` is modelled as
  `None`, and so is a read of an unassigned result.

## Model

| member | source | states |
|---|---|---|
| Board.GetterReadsSetterSlot | tictactoe.c:152-165 | both getters, `board_t_get_cell_color` (index `y*WIDTH+x`) and `board_t_get_cell_color_via_movement`, read the slot that `board_t_set_cell_color` writes for the same (x, y), index `HEIGHT*y+x` |
| Board.SetCellColor | tictactoe.c:181-187 | writing at (x, y) through index `HEIGHT*y+x` is seen by the getter (index `y*WIDTH+x`) at (x, y), and every other cell reads as before |
| Board.SetCellColorViaMovement | tictactoe.c:189-194 | the written colour is read back at the movement's cell; all other cells are unchanged |
| Board.CanMakeMovement | tictactoe.c:167-179 | a movement is legal exactly when both coordinates are inside the 3x3 grid and that cell is empty (neither 'X' nor 'O') |
| Board.MakeMovement | tictactoe.c:287-297 | a legal movement writes the colour to its cell and leaves the other 8 cells untouched; an illegal movement leaves the board unchanged |
| Board.CellIsEmpty | tictactoe.c:216-228 | a cell counts as empty exactly when a movement to it is legal |
| Board.Copy | tictactoe.c:299-314 | the copy equals the original cell for cell, whatever the fresh storage held |
| Board.SetInitialCellValues | tictactoe.c:196-209 | whatever the storage held, every cell (x, y) becomes empty with label '1' + 3y + x, so the labels run '1'..'9' row by row |
| Board.HasAvailableSpots | tictactoe.c:397-410 | the row-by-row scan with early return answers true exactly when some cell holds neither mark |
| Board.MarkingFillsOneCell | tictactoe.c:571-586 | putting a mark on a legal cell lowers the number of empty cells by one, so the search terminates |
| Players.InvertPlayerColor | tictactoe.c:115-117 | the next player always differs from the current one |
| Players.InvertIsInvolution | tictactoe.c:115-117 | inverting twice gives back the same player |
| Players.PlayerCellColor | tictactoe.c:516-528 | X places 'X' and O places 'O', never an empty colour, so the abort is unreachable |
| Selector.IsValidPositionCharacter | tictactoe.c:530-532 | a character is valid exactly when it is the label of some cell on a fresh board |
| Selector.ConvertBoardSelectorToMove | tictactoe.c:230-285 | exactly the characters accepted by `is_valid_position_character` ('1'..'9', tictactoe.c:530-532) convert; each converts to an in-range cell whose initial label is that character; anything else aborts |
| Selector.SelectorInvertsInitialLabels | tictactoe.c:196-209 | converting the label shown at (x, y) on a fresh board gives back exactly (x, y) |
| Winner.CellColorToWinningStatus | tictactoe.c:412-425 | 'X' maps to WIN_X and 'O' to WIN_O; only an empty colour aborts |
| Winner.LineWinner | tictactoe.c:435-439 | a line yields WIN_X (WIN_O) exactly when its three cells all hold X (O), and nothing otherwise; the status conversion is applied only to a mark |
| Winner.RowsAndColumns | tictactoe.c:429-451 | the row/column loop reports only a win for X, a win for O, or nothing; never a tie or "not finished" |
| Winner.RowsAndColumnsFindsLines | tictactoe.c:429-451 | the row/column loop reports X (O) only if some row or column from i on is all X (O); when it reports nothing, no such row or column is complete |
| Winner.GetWinnerStatus | tictactoe.c:427-480 | WIN_X (WIN_O) only if some row, column or diagonal is all X (O); any complete line gives a win; without a complete line, WIN_TIE exactly when no cell is free and WIN_NA exactly when one is |
| Search.Preference | tictactoe.c:97-101 | the bonus is between 0 and 20; 20 exactly at the centre, 5 exactly at the corners, 0 exactly at the four edge cells |
| Search.AlphaBeta | tictactoe.c:544-662 | whenever the search yields a score, the live board is exactly what it was before the call, because every trial cell gets its saved colour back |
| Search.Scan | tictactoe.c:565-606 | the move loop, including the make/unmake on each trial and the early `break` paths, returns the live board unchanged and keeps `best_movement` inside the grid; one function models both branches: the O loop here and its mirror for X at lines 616-657 |
| Search.RowMajor | tictactoe.c:565-569 | step k of the search loop visits an in-range cell whose flat index is k |
| Search.Record | tictactoe.c:592-597 | `best_score` and `best_movement` take the child's score and move exactly when that score is strictly better for the side to move, and otherwise stay as they were; `value` becomes the better of itself and the child's score; alpha and beta are untouched |
| Search.Tighten | tictactoe.c:603-654 | without a cutoff, the maximiser sets alpha to the larger of alpha and `value` (tictactoe.c:603) and the minimiser sets beta to the smaller of beta and `value` (tictactoe.c:654); nothing else changes |
| Search.NextRow | tictactoe.c:599-601 | after the `break`, the scan resumes at the first cell of the next row: a multiple of the width, one row further on |
| Search.CutOff | tictactoe.c:599-650 | the node cuts off (`value >= beta` for O, `value <= alpha` for X) exactly when `value` is not strictly better for the opponent than the opponent's bound (beta for O, alpha for X) |
| Search.Max | tictactoe.c:21 | `MAX` yields one of its arguments, at least as large as both |
| Search.Min | tictactoe.c:20 | `MIN` yields one of its arguments, at most as large as both |
| Search.TerminalScores | tictactoe.c:550-558 | with only X holding a line, the score is -100 + depth; with only O holding one, 100 - depth; on a full board without a line, 0; the board is left as found |
| Search.AlphaBetaBounded | tictactoe.c:560-660 | when depth ≥ 0 and depth + free cells ≤ 200, the search always yields a score, so `best_movement` is assigned before it indexes PREFERENCE_FILTER, and the score's absolute value is at most 100 + 20·(free cells) |
| Search.ScanSkipsOccupied | tictactoe.c:565-622 | when every remaining cell holds a mark, the move loop searches nothing and returns the frame unchanged: alpha, beta, `value` and the best move stay as they were |
| Search.ScanBoundedAtFreeCell | tictactoe.c:571-654 | at a free cell, the child's score is within the children's bound, so it beats the sentinel and sets the best move, and the rest of the loop keeps `value == best_score` within that bound |
| Search.ScanBounded | tictactoe.c:560-660 | each child score beats the sentinel, so the first free cell visited sets the best move; `value` then equals `best_score` and stays within the children's bound |
| Search.RecordKeepsInvariant | tictactoe.c:562-648 | a child score inside the bound always beats the ±1000 sentinel, so after one recorded child a best move exists and `value == best_score` |
| Search.CutOffFreezesWindow | tictactoe.c:597-654 | once a node has cut off, the rest of its loop never changes alpha or beta, and the cutoff condition keeps holding |
| Ai.ColumnMajor | tictactoe.c:487-489 | step j of the top-level loop visits an in-range cell whose column-major step number is j |
| Ai.TrialScore | tictactoe.c:492-502 | the score for playing O at a free cell always exists and its absolute value is at most 100 + 20·(free cells) |
| Ai.ScoreOnCopy | tictactoe.c:491-503 | copying, placing O on the copy and searching it with X to move gives exactly that cell's trial score |
| Ai.FreeCellIsVisited | tictactoe.c:487-491 | every free cell is reached by the column-major top-level loop |
| Ai.FirstMaxStep | tictactoe.c:505-508 | a strict `<` update keeps the first step of maximal score among the legal steps seen so far |
| Ai.VisitCell | tictactoe.c:489-509 | one pass of the top-level loop body keeps the chosen move the first legal move of maximal score among the steps visited so far; the move changes only to the attempted cell, and only when that cell may be played |
| Ai.FinishedScanChoosesFirstMax | tictactoe.c:482-514 | after all nine steps, the chosen move exists exactly when a cell is free; it is legal, no legal move scores higher, and every legal move visited earlier scores strictly lower |
| Ai.ComputeNextAiMovement | tictactoe.c:482-514 | returns a legal move exactly when the board has a free cell; that move has maximal score, and it is the first such move in column-major order |
| Scenarios.FullBoardWithoutLineIsTie | tictactoe.c:474-477 | the full board X O X / X O O / O X X, which has no line, is a tie |
| Scenarios.WinOrLoseScores | tictactoe.c:544-662 | on O O 3 / X X O / X 8 X, O completing the top row scores 100, and O at (1, 2) scores -104: X's anti-diagonal one ply deeper gives -99, minus the corner bonus 5 |
| Scenarios.TakesTheWin | tictactoe.c:482-514 | on that board the move chooser returns (2, 0), the winning cell, even though it visits (1, 2) first |

## Left out

- Sprites, text rendering and printing (`load_*_sprite`, `apply_board_*sprite`, `do_print`, `board_t_print`, tictactoe.c:26-95, 316-395): these only produce console output.
- `bot_mode`'s input reading, prompts and result messages (tictactoe.c:669-755): these are I/O. Turns alternate through `Players.InvertPlayerColor`, and each move it applies uses functions modelled here.
- `millis` (tictactoe.c:534-542) and `rand`/`srand` (tictactoe.c:664-667, 757-766): clock and randomness calls.
- `malloc`/`free` (tictactoe.c:147-150, 198, 211-214, 301): the board is a value. A fresh allocation's unknown contents are a parameter of `Board.Copy` and `Board.SetInitialCellValues`, and the results are proved independent of it.
- `int` is 32-bit in C. The model uses unbounded integers. Under the hypothesis of `Search.AlphaBetaBounded`, every value stays far from the 32-bit limits. Outside that hypothesis, `-100 + depth` and `100 - depth` (tictactoe.c:553, 555) and `depth + 1` (tictactoe.c:583, 634) can wrap, near `INT_MIN` as well as `INT_MAX`; the model does not wrap.
- Board.GetCellColor: out-of-range coordinates are a precondition. The C code reads memory unchecked, but every caller passes in-range coordinates.
- Search.AlphaBetaBounded: the score bound assumes depth + free cells ≤ 200, and not only depth ≥ 0. For a larger depth, the terminal score -100 + depth alone already exceeds 100. The program itself calls the search with depth + free cells ≤ 8.
- Winner.GetWinnerStatus: the model does not claim that X and O cannot both hold a line. On such a board, the scan order of the code decides, as modelled.
- Game-level claims are not proved: "the program never loses", "equals plain minimax", the empty-board opening at the centre, and blocking a two-in-a-row. The code does not promise them, because the bonus is mixed into values compared against alpha and beta, and the cutoffs are partial. Checking them would also mean evaluating the whole game tree.
