# Tic-tac-toe search and shopping label bookkeeping, in Dafny

This project models two parts of a Python course repository and proves
properties of them.

- **Tic-tac-toe** (`tictactoe/tictactoe.py`).
  - The rules: the initial board, whose turn it is, the legal moves, the board after a move, the winner, whether the game is over, and its utility for X. These are in module `TicTacToe`, file `tictactoe.dfy`.
  - The search: `max_value` and `min_value`, two mutually recursive loops with a one-sided pruning bound, and `minimax`, which picks the move. These are in module `TicTacToeSearch`, file `tictactoe_search.dfy`.
- **Shopping** (`shopping/shopping.py`), in module `Shopping`, file `shopping.dfy`.
  - `evaluate`: the counter loop and the two ratios it returns (sensitivity and specificity).
  - The categorical columns of `load_data`: month, visitor type, weekend and the revenue label.
  - Each data row as a whole, and the list of rows after the header.

Module `Wrappers` (`wrappers.dfy`) holds `Option` and `Outcome`. An exception that the source raises is an `Err` outcome, so error paths are modelled, not excluded by preconditions.

Boards are values: `result` deep-copies the board before writing one cell, and Dafny's sequences already behave that way.

The source's loops are methods, each proved against a function that specifies it:
- `actions` is `ComputeActions`, against `Actions`;
- `winner` is `ComputeWinner`, against `Winner`;
- `terminal` is `ComputeTerminal`, against `Terminal`;
- `evaluate` is `Evaluate`, against `Rates`;
- `load_data`'s row loop is `LoadData` with `EncodeOneRow`, against `Load` and `EncodeRow`.

The pruned search (`MaxValue`, `MinValue`, `Minimax`) is proved against the unpruned game value `MaxGameValue`/`MinGameValue`. That value is plain minimax over `Actions` and `Place`. The recursion ends because every move fills one empty cell.

The pruning bound works as the docstrings of `max_value` and `min_value` describe (tictactoe/tictactoe.py:91-96 and 109-114). With the default bounds (1 for `max_value`, -1 for `min_value`) the pruned search returns the exhaustive value. With any other bound it is guaranteed exact when the value lies strictly on the near side of the bound. Otherwise it returns a value between the bound and the true value. `minimax` always calls with the defaults.

O opens: `player` returns X only when O has more marks than X (tictactoe/tictactoe.py:26-28), so O moves first on the empty board. The invariant that moves preserve is `Balanced`: O has as many marks as X or one more.

Where the code and its docstring disagree, the model follows the code. The `load_data` docstring (shopping/shopping.py:57) describes the Weekend column as 0 or 1, but the code encodes it as 0 on every row (see Findings).

## Model

| member | source | states |
|---|---|---|
| TicTacToe.InitialState | tictactoe/tictactoe.py:12-18 | every one of the nine cells is empty |
| TicTacToe.CountRow | tictactoe/tictactoe.py:24-25 | `row.count(c)` never exceeds the row's length |
| TicTacToe.CountRowIsMultiplicity | tictactoe/tictactoe.py:24-25 | `row.count(c)` is the number of occurrences of `c` in the row |
| TicTacToe.Count | tictactoe/tictactoe.py:24-25 | the board-wide count of a mark is at most 9 |
| TicTacToe.CountIsMultiplicity | tictactoe/tictactoe.py:24-25 | the sum of the three row counts is the number of occurrences of the mark among the nine cells |
| TicTacToe.Player | tictactoe/tictactoe.py:20-28 | the player to move is X or O, and it is X exactly when O's marks outnumber X's |
| TicTacToe.InitialStateFacts | tictactoe/tictactoe.py:12-28 | on the initial board O moves, nine cells are empty, there is no winner, the game is not over, and the counts are balanced |
| TicTacToe.CountAfterWrite | tictactoe/tictactoe.py:47-48 | writing one cell moves one unit of count from the old content to the new mark and changes no other count |
| TicTacToe.FullIffNoEmpties | tictactoe/tictactoe.py:74-78 | a board has no empty cell exactly when its count of empty cells is 0 |
| TicTacToe.Place | tictactoe/tictactoe.py:47-49 | the chosen cell holds the mover's mark, every other cell is unchanged, the empty count drops by one, the mover's count rises by one and the other count is unchanged |
| TicTacToe.Result | tictactoe/tictactoe.py:41-49 | succeeds exactly for an in-range empty cell (out-of-range and occupied moves raise) and then yields `Place` |
| TicTacToe.PlayerAlternates | tictactoe/tictactoe.py:41-49 | a legal move keeps the counts balanced and hands the turn to the other player |
| TicTacToe.Coord | tictactoe/tictactoe.py:35-36 | each of the nine row-major positions is a cell of the grid |
| TicTacToe.ActionsUpToFacts | tictactoe/tictactoe.py:34-39 | after the first `n` cells of the nested loops, the list holds exactly the empty cells among them, in strictly increasing row-major order |
| TicTacToe.ActionsAreEmptyCells | tictactoe/tictactoe.py:30-39 | a move is listed iff it is an in-range empty cell; the list is strictly increasing in row-major order (so no cell appears twice); it is empty iff the board is full |
| TicTacToe.Actions | tictactoe/tictactoe.py:30-39 | every listed move is an in-range empty cell |
| TicTacToe.ComputeActions | tictactoe/tictactoe.py:30-39 | the nested loops produce `Actions(b)` |
| TicTacToe.FirstWinner | tictactoe/tictactoe.py:61-66 | the scan reports only X or O |
| TicTacToe.FirstWinnerScan | tictactoe/tictactoe.py:61-66 | the scan reports `None` exactly when no line is filled by X or by O (an all-empty line never counts); otherwise it reports the mark of the first filled line, X tried before O on each line |
| TicTacToe.LinesInOrder | tictactoe/tictactoe.py:55-60 | the lines are checked in the order row 0, column 0, row 1, column 1, row 2, column 2, main diagonal, anti-diagonal |
| TicTacToe.Winner | tictactoe/tictactoe.py:51-66 | there is no winner exactly when none of the eight lines is filled by X or by O; a reported winner fills at least one line |
| TicTacToe.ComputeWinner | tictactoe/tictactoe.py:51-66 | collecting the eight lines and then scanning them gives `Winner(b)` |
| TicTacToe.Utility | tictactoe/tictactoe.py:80-88 | the utility is 1 exactly when X has won, -1 exactly when O has won, and 0 otherwise |
| TicTacToe.Terminal | tictactoe/tictactoe.py:68-78 | the game is over exactly when there is a winner or no cell is empty |
| TicTacToe.ComputeTerminal | tictactoe/tictactoe.py:68-78 | the early-return loops give `Terminal(b)`: X or O has won, or no cell is empty |
| TicTacToe.NonTerminalHasActions | tictactoe/tictactoe.py:68-78 | a game that is not over has a legal move, and every full board is over |
| TicTacToeSearch.RunningMaxIsMaximum | tictactoe/tictactoe.py:100-106 | for values in [-1, 1], starting at -1 and taking `max` gives their maximum: it bounds every value and, on a non-empty list, equals one of them |
| TicTacToeSearch.RunningMinIsMinimum | tictactoe/tictactoe.py:118-124 | for values in [-1, 1], starting at 1 and taking `min` gives their minimum: it bounds every value from below and, on a non-empty list, equals one of them |
| TicTacToeSearch.RunningMaxPrefix | tictactoe/tictactoe.py:101-105 | the running maximum after a prefix of the loop never exceeds the final one |
| TicTacToeSearch.RunningMinPrefix | tictactoe/tictactoe.py:119-123 | the running minimum after a prefix of the loop is never below the final one |
| TicTacToeSearch.MaxGameValue | tictactoe/tictactoe.py:90-106 | the unpruned game value for X at a maximising level (the player to move is treated as the maximiser, whoever it is) lies in [-1, 1] |
| TicTacToeSearch.MinGameValue | tictactoe/tictactoe.py:108-124 | the unpruned game value for X at a minimising level (the player to move is treated as the minimiser, whoever it is) lies in [-1, 1] |
| TicTacToeSearch.MinReplies | tictactoe/tictactoe.py:101-102 | one reply value per legal move, each in [-1, 1] |
| TicTacToeSearch.MaxReplies | tictactoe/tictactoe.py:119-120 | one reply value per legal move, each in [-1, 1] |
| TicTacToeSearch.GameValuesAreOptimal | tictactoe/tictactoe.py:90-124 | on a game that is not over, the value at a maximising level is the best reply value over the mover's moves: no move is worth more and some move is worth exactly that; dually, at a minimising level the value is the least reply value |
| TicTacToeSearch.MaxValueStep | tictactoe/tictactoe.py:101-105 | a reply value obtained with the running maximum as bound keeps the running maximum exact and never exceeds the game value |
| TicTacToeSearch.MinValueStep | tictactoe/tictactoe.py:119-123 | a reply value obtained with the running minimum as bound keeps the running minimum exact and is never below the game value |
| TicTacToeSearch.ReplyOfResult | tictactoe/tictactoe.py:101-102 | `result` accepts every listed move, the board it yields has fewer empty cells, and its game values are the reply values of that move |
| TicTacToeSearch.MaxValue | tictactoe/tictactoe.py:90-106 | terminates with a value in [-1, 1]; it is the exact game value when that value is below the bound, and lies between the bound and the game value otherwise; with the default bound 1 it is exact |
| TicTacToeSearch.MinValue | tictactoe/tictactoe.py:108-124 | terminates with a value in [-1, 1]; it is the exact game value when that value is above the bound, and lies between the game value and the bound otherwise; with the default bound -1 it is exact |
| TicTacToeSearch.ArgMaxStep | tictactoe/tictactoe.py:135-139 | a strictly greater value moves X's choice to the current move, and a value that is not greater keeps the earlier choice |
| TicTacToeSearch.ArgMinStep | tictactoe/tictactoe.py:143-147 | a strictly smaller value moves O's choice to the current move, and a value that is not smaller keeps the earlier choice |
| TicTacToeSearch.BestMoveForX | tictactoe/tictactoe.py:133-140 | X's loop returns the first move in row-major order whose `min_value` is greatest among all moves |
| TicTacToeSearch.BestMoveForO | tictactoe/tictactoe.py:142-148 | O's loop returns the first move in row-major order whose `max_value` is least among all moves |
| TicTacToeSearch.Minimax | tictactoe/tictactoe.py:126-148 | returns `None` exactly on a finished game; otherwise a legal move (never the placeholder `(0, 0)` unless that move is legal and chosen); for X, the first move in row-major order with the greatest `min_value`; for O, the first with the least `max_value` |
| Shopping.Step | shopping/shopping.py:139-146 | one pair adds one to exactly one total, to the positives exactly when the label is 1; it adds one to the identified counts exactly when the prediction is right (1 for a label 1, 0 for any other label) |
| Shopping.TallyCountsLabels | shopping/shopping.py:138-144 | the positives are the occurrences of label 1 in the zipped prefix and the negatives all the other labels there |
| Shopping.Rates | shopping/shopping.py:148-150 | on success each ratio times its total gives its identified count |
| Shopping.ZipLength | shopping/shopping.py:138 | `zip` runs for the length of the shorter list |
| Shopping.TallyCountsEveryPair | shopping/shopping.py:134-146 | every pair of the zip counts once, as a positive or as a negative, so the two totals add up to the zip's length; identified counts never exceed their totals |
| Shopping.TallyTotalsZero | shopping/shopping.py:139-144 | there are no positives exactly when no label in the zip is 1, and no negatives exactly when every label is 1 |
| Shopping.TallyIdentifiesAll | shopping/shopping.py:138-146 | all positives are identified exactly when every label 1 is predicted 1; all negatives exactly when every other label is predicted 0 |
| Shopping.RatioInUnitInterval | shopping/shopping.py:148-149 | a count divided by a nonzero total it does not exceed lies in [0, 1] |
| Shopping.RatioIsOne | shopping/shopping.py:148-149 | such a ratio is 1 exactly when the count equals the total |
| Shopping.RatesSpec | shopping/shopping.py:119-150 | `evaluate` fails with a division by zero exactly when no label in the zip is 1 or every label is; otherwise both ratios lie in [0, 1], and each is 1 exactly when every label of its kind was predicted right |
| Shopping.Evaluate | shopping/shopping.py:119-150 | the four-counter loop and the two divisions give `Rates(labels, predictions)` |
| Shopping.IndexOf | shopping/shopping.py:93 | `list.index` returns the first position holding the value |
| Shopping.IndexOfMissing | shopping/shopping.py:93 | `list.index` raises exactly when the value is absent |
| Shopping.MonthIndex | shopping/shopping.py:92-93 | an accepted month cell becomes an index 0..11 whose abbreviation is the cell's first three characters |
| Shopping.MonthIndexMissing | shopping/shopping.py:92-93 | a month cell is rejected exactly when its first three characters are none of `Jan`..`Dec` |
| Shopping.Prefix3 | shopping/shopping.py:93 | `s[:3]` has length min(len(s), 3) and is a prefix of `s` |
| Shopping.MonthExamples | shopping/shopping.py:92-93 | `Jan` becomes 0, and `June` (truncated to `Jun`) becomes 5 |
| Shopping.EncodeRow | shopping/shopping.py:72-103 | an accepted row has at least 17 cells and becomes 17 values |
| Shopping.EncodeRowAccepts | shopping/shopping.py:72-103 | a row is accepted exactly when it has at least 17 cells and its month cell starts with one of `Jan`..`Dec`; it fails on the month exactly when it has more than 10 cells and an unknown month; otherwise a missing column is reported |
| Shopping.VisitorType | shopping/shopping.py:101 | the visitor column becomes 0 or 1, and 1 exactly for `Returning_Visitor` |
| Shopping.Label | shopping/shopping.py:105 | the label is 0 or 1, and 1 exactly when the row's last cell is `TRUE` |
| Shopping.EncodeRowColumns | shopping/shopping.py:72-103 | in an accepted row, the month becomes its index; the visitor type becomes 1 iff the cell is exactly `Returning_Visitor`, else 0; the weekend becomes 0; every other column keeps its cell |
| Shopping.EncodeOneRow | shopping/shopping.py:72-103 | copying `row[:17]` and overwriting cells 10, 15 and 16 in place gives `EncodeRow(row)`, with the same errors in the same order |
| Shopping.EncodeAll | shopping/shopping.py:67-105 | on success there are as many evidence rows and labels as rows, and each evidence row has 17 values |
| Shopping.EncodeAllKeepsError | shopping/shopping.py:69-105 | once a row fails, `load_data` fails with that row's error whatever follows |
| Shopping.EncodeAllStep | shopping/shopping.py:69-105 | one more row either fails with its own error, or appends its encoding to the evidence and its label to the labels |
| Shopping.EncodeAllShape | shopping/shopping.py:67-106 | on success there are as many evidence rows and as many labels as rows, in order, each the encoding and the label of its row |
| Shopping.EncodeAllFails | shopping/shopping.py:69-105 | encoding a list of rows fails exactly when some row fails |
| Shopping.Load | shopping/shopping.py:62-106 | a spreadsheet with no header row fails; on success there is one evidence row of 17 values and one label per data row |
| Shopping.LoadData | shopping/shopping.py:62-106 | the loop over the rows after the header gives `Load(rows)` |
| Shopping.LoadSpec | shopping/shopping.py:62-106 | `load_data` fails exactly when there is no header or some data row fails; otherwise evidence and labels have one entry per data row, in order, each row's encoding and its label (1 iff the last cell is `TRUE`) |
| Shopping.WeekendIgnored | shopping/shopping.py:103 | a row whose Weekend cell is `TRUE` is accepted and still gets 0 in the weekend column |
| Shopping.EncodeRowIntended | shopping/shopping.py:57 | the corrected encoding accepts the same rows, sets the weekend column to 1 iff the Weekend cell is `TRUE`, and agrees with the source on the other columns |
| Shopping.EncodeAllSameFailures | shopping/shopping.py:69-105 | two row encodings that accept the same rows accept the same lists of rows and read the same labels |
| Shopping.LoadIntendedSpec | shopping/shopping.py:57 | the corrected load fails exactly when the source's does, reads the same labels, and gives each data row its corrected encoding |
| Shopping.LoadIntendedAgrees | shopping/shopping.py:57 | where the source's load succeeds, the corrected one does too, and each of its evidence rows is the source's with the weekend column replaced by 1 for a Weekend cell `TRUE` and 0 otherwise |

## Left out

- `main` in shopping/shopping.py is left out: argument checks, `sys.exit`, printing and percent formatting are I/O.
- Opening the file and `csv.reader` (shopping/shopping.py:63-65) are left out. The model takes the spreadsheet as a sequence of rows, each a sequence of cell strings. The header row is the first of them.
- The `int` and `float` conversions of the numeric columns (shopping/shopping.py:75-90, 98-99) are not modelled. Those columns keep their text (`Value.Text`), so a row whose numeric cell does not parse raises in the source but is accepted here. Rows that are too short still fail, with `MissingColumn`, in the source's order relative to the month lookup.
- `train_test_split`, `train_model`, `KNeighborsClassifier` and `model.predict` are left out: they are calls into a library that is not part of this model.
- Shopping.Evaluate: the two divisions are exact `real` quotients, not IEEE doubles, so rounding is not modelled.
- `deepcopy` is not a separate operation: boards are immutable values, so copying is implicit.
- The pruned search's performance (how many nodes it visits) is not modelled, only the values and moves it returns.
- The value of the whole game from the initial board (a draw under perfect play) is not proved: that needs the full game tree evaluated, not a structural argument.
- Shopping.MonthExamples: states two months only; each further concrete month (a later one, or a rejected prefix) costs the verifier a full unrolling of the month list.

## Findings

| source | as written | input that shows it | evidently intended | confidence | as-written member | corrected member |
|---|---|---|---|---|---|---|
| shopping/shopping.py:103 | the Weekend cell is compared after cell 15 has already become the integer 0 or 1, so the comparison with `'TRUE'` never holds and every row gets 0 | a row whose Weekend cell (index 16) is `TRUE`, such as the row in `WeekendIgnored` | 1 when the Weekend cell is `TRUE`, else 0, as the docstring at line 57 says | high; not executed | Shopping.WeekendIgnored | Shopping.EncodeRowIntended |

`LoadData` and `Load` keep the source's behaviour. The corrected path is `EncodeRowIntended` and `LoadIntended`. `LoadIntendedAgrees` proves that it differs from the source only in the weekend column, row by row.
