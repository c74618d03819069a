# Alpha-beta agent for Connect-N, modelled in Dafny

This project models the alpha-beta agent of the ConnectN repository
(`alpha_beta_agent.py`). The agent picks a column for a Connect-N board.
`go` fixes the agent's point of view (`me` is the player to move, `you` the
other) and runs `max` to depth `max_depth` with the window (-inf, +inf).
`max` and `min` are the two halves of a depth-bounded, fail-soft alpha-beta
search over the successor boards that `get_successors` builds. At the horizon,
`heuristic` scores a board: a win and a loss sentinel first, then a
"defensive" sum over cells with a line through them, then an "aggressive"
sum of `n2_line_at` over windows scanned in four directions.

The project is split into modules:

- `wrappers.dfy` (`Wrappers`): `Option`, which stands for a column or Python's `None`.
- `scores.dfy` (`Scores`): search values. These are the integers extended with
  -inf and +inf, which model `math.inf`, together with the order on them and
  Python's `max` and `min`.
- `boards.dfy` (`Boards`): the board as the agent sees it. It has the fields
  `w`, `h`, `n`, `player` and `board`, plus `free_cols` and `copy` + `add_token`.
  The two queries whose code is not part of this model, `get_outcome` and
  `is_any_line_at`, are functions held in a `Rules` value.
- `evaluation.dfy` (`Evaluation`): the specification functions of
  `n2_line_at` and `heuristic`, and bounds on the positional score.
- `search.dfy` (`Search`): the specification functions of `get_successors`,
  plain minimax, and the alpha-beta loops of `max` and `min`. It also holds the
  lemmas that pruning does not change the answer: the search is fail-soft for
  every window and exact at the root.
- `agent.dfy` (`Agent`): the class `AlphaBetaAgent`, with the fields
  `max_depth`, `me` and `you` and one method per Python method. Each method is
  proved to compute its specification function.

A reader might expect a Connect-N agent to score an empty board 0, stop at won
boards, reject a full board, and always return a legal column. The code does
none of these, and the model follows the code:

- An empty board on which some window fits scores below 0, not 0. Every
  window that fits starts on an empty cell, which is not `me`, and all its
  cells repeat that empty cell, so each such window adds -10^(n-1). Only a
  board too small for any window (w < n and h < n, such as 1 x 1 with n = 2)
  scores 0 when empty.
- The search does not stop at won boards. Only the horizon (depth 0) calls
  `heuristic`.
- A board with no free column is not evaluated at depth > 0. `max` returns
  (-inf, no column) and `min` returns (+inf, no column).
- No error is raised for any input. `go` returns `None` for a full board, at
  `max_depth` 0, and also on some boards that still have a free column (see
  "## Findings"): when every line of play ends on a full board with `max` to
  move, every successor scores -inf, and -inf never strictly beats the initial
  -inf.
- The two sentinels are asymmetric. A board scores 1000000 only when `me` has
  won and `you` is to move, and -100000 only when `you` has won and `me` is to
  move.
- Every ply hands the move to the other player, so the leaves of a root
  search of depth d have `me` to move exactly when d is even. The 1000000
  sentinel can therefore fire only at odd `max_depth` and the -100000 sentinel
  only at even `max_depth`. This is why a one-ply search takes a win
  (WinningMoveChosen) and a two-ply search blocks the other player's winning
  reply (BlockingMoveChosen).
- The fourth scan of the aggressive part (lines 68-70) starts at columns
  n-1 .. w-1 and rows 0 .. h-n and runs down and to the right. Only windows
  that start at column at most w-n and row at least n-1 fit on the board, so on
  the standard 7 x 6 board with N = 4 this scan adds nothing. It is modelled as
  written.

## Model

| member | source | states |
|---|---|---|
| Boards.Other | alpha_beta_agent.py:109 | the player after `p` is 2 after 1 and 1 otherwise, as `(not (p-1))+1` gives for players 1 and 2: always a player number and never `p` |
| Boards.FreeColsFrom | alpha_beta_agent.py:166 | the scan of `free_cols` from column c lists only free columns (FreeColsFromSpec states the rest) |
| Boards.FreeCols | alpha_beta_agent.py:166 | `free_cols` lists only free columns (FreeColsSpec states the rest) |
| Boards.LowestEmptyFrom | alpha_beta_agent.py:177 | the search of `add_token` for the lowest empty cell, upwards from row r, ends on a row between r and h-1 (LowestEmptyFromSpec states which) |
| Boards.LowestEmpty | alpha_beta_agent.py:177 | the row a token dropped into a free column lands on lies on the board |
| Boards.FreeColsSpec | alpha_beta_agent.py:166-169 | `free_cols` lists exactly the columns whose top cell is empty, in strictly ascending order, so it is empty exactly when the board is full |
| Boards.FreeColsFromSpec | alpha_beta_agent.py:166 | the scan from column c lists only columns from c on, every free one among them, in strictly ascending order |
| Boards.AddToken | alpha_beta_agent.py:174-177 | copying a board and adding a token keeps its size and line length and hands the move to the other player |
| Boards.AddTokenCells | alpha_beta_agent.py:174-177 | the token of the player to move lands in the lowest empty cell of the column, every cell below it is occupied, and every other cell is unchanged |
| Boards.LowestEmptyFromSpec | alpha_beta_agent.py:177 | searching a free column upwards over occupied cells stops at the first empty cell |
| Scores.MaxV | alpha_beta_agent.py:133 | Python's `max(alpha, best)` is an upper bound of both arguments and is one of them |
| Scores.MinV | alpha_beta_agent.py:154 | Python's `min(beta, best)` is a lower bound of both arguments and is one of them |
| Evaluation.LeavesBoard | alpha_beta_agent.py:79-81 | the bounds test of `n2_line_at`: the far end of the n-cell window lies right of the board, below it or above it |
| Evaluation.Sign | alpha_beta_agent.py:84-88 | the sign of a window is +1 when its start cell holds `me` and -1 otherwise, an empty start cell included |
| Evaluation.Run | alpha_beta_agent.py:91-95 | the run of cells after the start cell that repeat its token never passes the end of the n-cell window |
| Evaluation.RunSpec | alpha_beta_agent.py:91-95 | every cell in the run repeats the start cell's token, and the cell just after a run that stops early does not |
| Evaluation.WindowCellOnBoard | alpha_beta_agent.py:79-92 | every cell of a window that passes the bounds test of `n2_line_at` is on the board, so the loop never indexes outside the grid |
| Evaluation.N2Line | alpha_beta_agent.py:74-97 | a window that leaves the board scores 0; otherwise the score lies between 1 and 10^(n-1) in absolute value and is positive exactly when the start cell holds `me` (an empty start cell scores negative) |
| Evaluation.N2LineMeaning | alpha_beta_agent.py:74-97 | if exactly the k cells after the start repeat its token (all remaining cells, or up to the first one that differs), the window scores +10^k when the start token is `me` and -10^k otherwise |
| Evaluation.CellTerm | alpha_beta_agent.py:42-49 | the defensive term of one cell: -10^(n-1) for a `you` token and +10^(n-2) for a `me` token on a line, 0 otherwise (bounded by ColumnTermsBound and ColumnTermsLower) |
| Evaluation.ColumnTerms | alpha_beta_agent.py:41-49 | the defensive terms of the first rows of one column, in the order of the inner loop |
| Evaluation.Defensive | alpha_beta_agent.py:40-49 | the defensive part over the first columns, in the order of the outer loop (bounded by DefensiveBound and DefensiveLower) |
| Evaluation.WindowColumn | alpha_beta_agent.py:53-70 | the `n2_line_at` values of one column of window starts over an inner range (bounded by WindowColumnBound and WindowColumnLower) |
| Evaluation.WindowBlock | alpha_beta_agent.py:53-70 | one nested scan of the aggressive part over its two ranges (bounded by WindowBlockBound and WindowBlockLower) |
| Evaluation.Aggressive | alpha_beta_agent.py:51-70 | the aggressive part: the four scans with their exact loop ranges and directions |
| Evaluation.Heuristic | alpha_beta_agent.py:23-72 | `heuristic`: 1000000 and -100000 in the win and loss cases, tested in that order, and otherwise the defensive plus the aggressive part (HeuristicWinDominates and HeuristicLossDominates say when the sentinels are exact) |
| Evaluation.ColumnTermsBound | alpha_beta_agent.py:40-49 | the defensive terms of the first rows of a column add up to at most rows * 10^(n-1) |
| Evaluation.DefensiveBound | alpha_beta_agent.py:40-49 | the defensive part over the first columns is at most cols * h * 10^(n-1) |
| Evaluation.WindowColumnBound | alpha_beta_agent.py:53-70 | the `n2_line_at` values of one column of window starts add up to at most their number times 10^(n-1) |
| Evaluation.WindowBlockBound | alpha_beta_agent.py:53-70 | one nested scan of the aggressive part is at most (number of columns) * h * 10^(n-1) |
| Evaluation.ScanBound | alpha_beta_agent.py:53-70 | each of the four scans of the aggressive part is at most w * h * 10^(n-1) |
| Evaluation.PositionalScoreBound | alpha_beta_agent.py:38-70 | the defensive plus aggressive score never exceeds 5 * w * h * 10^(n-1) |
| Evaluation.ColumnTermsLower | alpha_beta_agent.py:40-49 | the defensive terms of the first rows of a column add up to at least -(rows * 10^(n-1)) |
| Evaluation.DefensiveLower | alpha_beta_agent.py:40-49 | the defensive part over the first columns is at least -(cols * h * 10^(n-1)) |
| Evaluation.WindowColumnLower | alpha_beta_agent.py:53-70 | the `n2_line_at` values of one column of window starts add up to at least -(their number times 10^(n-1)) |
| Evaluation.WindowBlockLower | alpha_beta_agent.py:53-65 | one nested scan is at least -(number of columns * number of rows * 10^(n-1)) |
| Evaluation.Diag2ColumnLower | alpha_beta_agent.py:68-70 | in a column of the fourth scan only windows from row n-1 on fit, so the column is at least -(Span(n-1, rHi) * 10^(n-1)), and it is 0 beyond column w-n |
| Evaluation.Diag2BlockLower | alpha_beta_agent.py:68-70 | the fourth scan is at least -(fitting columns * fitting rows * 10^(n-1)), counting columns n-1 .. w-n and rows n-1 .. h-n |
| Evaluation.PositionalScoreLower | alpha_beta_agent.py:38-70 | the defensive plus aggressive score is never below -LossCap: 10^(n-1) per cell and per window that fits on the board |
| Evaluation.HeuristicLossDominates | alpha_beta_agent.py:32-70 | when LossCap is below 100000, `heuristic` is at most -100000 exactly when `you` has won with `me` to move (and the win case did not fire first) |
| Evaluation.StandardBoardMargins | alpha_beta_agent.py:33-36 | evaluates the two caps for the standard 7 x 6 board with N = 4: PositionalBound is 210000, below 1000000, and LossCap is 99000, below 100000 |
| Evaluation.StandardBoardRange | alpha_beta_agent.py:23-72 | on every 7 x 6 board with N = 4 the positional score lies between -99000 and 210000, so `heuristic` reaches 1000000 exactly in the win case and -100000 exactly in the loss case |
| Evaluation.HeuristicWinDominates | alpha_beta_agent.py:32-70 | when that bound is below 1000000 (210000 on the standard 7 x 6 board with N = 4), `heuristic` reaches 1000000 exactly when `me` has won and `you` is to move |
| Search.Successors | alpha_beta_agent.py:163-180 | `get_successors`: one (board, column) pair per entry of `free_cols`, in its order (SuccessorEntries and SuccessorsCoverFree state what the entries are) |
| Search.Minimax | alpha_beta_agent.py:115-155 | the reference: `max` and `min` without the two pruning lines, the heuristic at depth 0 |
| Search.MaxFold | alpha_beta_agent.py:124-134 | the reference loop of `max` without pruning: a strictly greater child replaces the best (characterized by MaxFoldChoice) |
| Search.MinFold | alpha_beta_agent.py:145-155 | the reference loop of `min` without pruning: a strictly smaller child replaces the best (characterized by MinFoldChoice) |
| Search.AlphaBeta | alpha_beta_agent.py:115-155 | `max` and `min`: the heuristic at depth 0, otherwise their loop over the successors from (-inf or +inf, no column) (related to Minimax by AlphaBetaFailSoft) |
| Search.MaxLoop | alpha_beta_agent.py:124-134 | the rest of the loop of `max`: strict replacement, return once best >= beta, otherwise alpha raised to best (one pass stated by MaxLoopStep) |
| Search.MinLoop | alpha_beta_agent.py:145-155 | the rest of the loop of `min`: strict replacement, return once best <= alpha, otherwise beta lowered to best (one pass stated by MinLoopStep) |
| Search.SuccessorEntries | alpha_beta_agent.py:163-180 | each successor pairs a free column with the copy of the board that has the mover's token dropped into it and the other player to move; the columns strictly ascend |
| Search.SuccessorsCoverFree | alpha_beta_agent.py:163-180 | every free column has a successor and every successor's column is free; the list is empty exactly when no column is free |
| Search.MaxLoopStep | alpha_beta_agent.py:125-133 | one pass of the loop of `max`: a strictly greater child value replaces the best value and column, the loop returns once best >= beta, and otherwise continues with alpha raised to best |
| Search.MinLoopStep | alpha_beta_agent.py:146-154 | one pass of the loop of `min`: a strictly smaller child value replaces the best value and column, the loop returns once best <= alpha, and otherwise continues with beta lowered to best |
| Search.MaxFoldChoice | alpha_beta_agent.py:125-134 | without pruning, the maximizing loop ends with a value at least the initial best and every child's value; it keeps (best, column) or takes the FIRST child reaching the maximum, since ties keep the earlier column |
| Search.MinFoldChoice | alpha_beta_agent.py:146-155 | without pruning, the minimizing loop ends with a value at most the initial best and every child's value; it keeps (best, column) or takes the FIRST child reaching the minimum |
| Search.MaxStep | alpha_beta_agent.py:126-133 | on values alone: one pass of the `max` loop that starts from best <= alpha < beta, fed fail-soft child and rest-of-loop results, is fail-soft for max(best, child, rest) and never drops below best |
| Search.MinStep | alpha_beta_agent.py:147-154 | on values alone: the mirror image of MaxStep for the `min` loop |
| Search.MaxFoldValue | alpha_beta_agent.py:125-134 | the unpruned maximizing loop from best has the value max(best, the loop from -inf) |
| Search.MinFoldValue | alpha_beta_agent.py:146-155 | the unpruned minimizing loop from best has the value min(best, the loop from +inf) |
| Search.AlphaBetaFailSoft | alpha_beta_agent.py:115-155 | for every window alpha < beta, `max` and `min` agree with plain minimax value v: the result equals v when alpha < v < beta, is <= alpha when v <= alpha, and is >= beta when v >= beta |
| Search.MaxLoopFailSoft | alpha_beta_agent.py:124-134 | the loop of `max` from best <= alpha < beta never returns less than best and is fail-soft for the unpruned loop |
| Search.MinLoopFailSoft | alpha_beta_agent.py:145-155 | the loop of `min` from alpha < beta <= best never returns more than best and is fail-soft for the unpruned loop |
| Search.MaxFoldTop | alpha_beta_agent.py:127 | once the best value is +inf no child is strictly greater, so value and column stay |
| Search.RootLoopIsFold | alpha_beta_agent.py:110-134 | with beta = +inf and alpha equal to the best so far, as at the root, the loop of `max` returns exactly the unpruned value and column |
| Search.RootSearchIsMinimax | alpha_beta_agent.py:110-113 | the root call of `go`, `max(brd, max_depth, -inf, +inf)`, returns the same value and the same column as plain minimax |
| Search.RootChoice | alpha_beta_agent.py:110-134 | the root result is at least every successor's minimax value, and is either (-inf, no column) or the value and column of the first successor with the largest value |
| Search.MaxLoopColumn | alpha_beta_agent.py:125-134 | the column the loop of `max` returns is the one it started with or the column of one of the successors |
| Search.MinLoopColumn | alpha_beta_agent.py:146-155 | the column the loop of `min` returns is the one it started with or the column of one of the successors |
| Search.AlphaBetaColumn | alpha_beta_agent.py:115-155 | the column `max` or `min` returns is None or a free column of the board searched, and it is None at depth 0 |
| Search.FirstBestWins | alpha_beta_agent.py:32-33 | among one-ply successors where the win sentinel dominates, if some successor scores 1000000 then the first best one is won by `me` |
| Search.WinningSuccessor | alpha_beta_agent.py:32-33 | the successor of a free column that wins for `me` (with `me` to move, so `you` moves next) scores 1000000 |
| Search.WinningMoveChosen | alpha_beta_agent.py:105-134 | on a board where the sentinel dominates, a one-ply search from the root picks a winning column whenever one exists |
| Search.NoWinningReply | alpha_beta_agent.py:29-31 | after `me` plays column c, no reply of `you` wins |
| Search.ReplyScore | alpha_beta_agent.py:35-36 | a board two plies below the root, with `me` to move again, scores at most -100000 exactly when `you` has won it, if the loss sentinel dominates |
| Search.ReplyBlocked | alpha_beta_agent.py:136-155 | when `you` has no winning reply to column c, the one-ply minimizing value after c is above -100000 |
| Search.ReplyWins | alpha_beta_agent.py:136-155 | when `you` has a winning reply to column c, the one-ply minimizing value after c is at most -100000 |
| Search.ReplyValue | alpha_beta_agent.py:136-155 | the one-ply minimizing value after column c is above -100000 exactly when `you` has no winning reply to c |
| Search.RootChild | alpha_beta_agent.py:124-126 | the k-th successor at the root is a free column whose value in a two-ply search is the one-ply minimizing value after it |
| Search.RootAboveLoss | alpha_beta_agent.py:105-134 | a two-ply root value is above -100000 as soon as some free column leaves `you` no winning reply |
| Search.BlockingMoveChosen | alpha_beta_agent.py:29-31 | with `me` to move and the loss sentinel dominating, a two-ply search from the root picks a free column that leaves `you` no winning reply whenever such a column exists |
| Search.EvenEndgameNoColumn | alpha_beta_agent.py:112-134 | as written: on a one-column board with two empty cells, a three-ply search from the root returns (-inf, no column) although column 0 is free |
| Search.OnePlyMinAboveNegInf | alpha_beta_agent.py:136-155 | one ply above the horizon, plain minimax's minimizing value is +inf exactly when no column is free and otherwise the heuristic score of some successor, so it is never -inf |
| Search.RootPicksColumn | alpha_beta_agent.py:120-134 | the root returns a free column as soon as some successor's minimax value is above -inf |
| Search.ShallowSearchPicksColumn | alpha_beta_agent.py:105-134 | with one or two plies, the root returns a free column whenever the board has one |
| Search.MaxLoopCorrected | alpha_beta_agent.py:124-134 | corrected: the loop of `max` that also takes a child while it has no column returns a column whenever it has a successor or started with a column, and that column is the initial one or a successor's |
| Search.CorrectedRoot | alpha_beta_agent.py:110-113 | corrected: the root call of `go` with the corrected loop |
| Search.MaxLoopCorrectedAgrees | alpha_beta_agent.py:124-134 | the corrected loop returns the value of the loop as written, and the same column whenever the loop as written returns one |
| Search.CorrectedRootPicksColumn | alpha_beta_agent.py:104-134 | for every depth >= 1 the corrected root has the minimax value of the search as written, keeps its column when it has one, and returns a column exactly when the board has a free one, always a free one |
| Search.EvenEndgameCorrected | alpha_beta_agent.py:104-134 | on the counterexample board at depth 3 the corrected root returns column 0 |
| Agent.AlphaBetaAgent.constructor | alpha_beta_agent.py:16-21 | stores `max_depth`; `me` and `you` start as None |
| Agent.AlphaBetaAgent.Heuristic | alpha_beta_agent.py:23-72 | `heuristic` returns the win and loss sentinels in their cases, and otherwise the defensive sum plus the aggressive sum |
| Agent.AlphaBetaAgent.AggressiveScan | alpha_beta_agent.py:51-70 | the aggressive part is the sum of the vertical, horizontal and two diagonal scans over their loop ranges |
| Agent.AlphaBetaAgent.SumWindows | alpha_beta_agent.py:53-70 | a nested scan adds `n2_line_at` over every (c, r) of its two ranges |
| Agent.AlphaBetaAgent.SumColumn | alpha_beta_agent.py:53-70 | an inner scan adds `n2_line_at` over every r of its range for one column c |
| Agent.AlphaBetaAgent.N2LineAt | alpha_beta_agent.py:74-97 | `n2_line_at` computes N2Line: 0 off the board, otherwise the signed power of ten of the run length |
| Agent.AlphaBetaAgent.GetSuccessors | alpha_beta_agent.py:163-180 | `get_successors` builds the successor list by appending, in `free_cols` order |
| Agent.AlphaBetaAgent.Max | alpha_beta_agent.py:115-134 | `max` returns the alpha-beta value and column of AlphaBeta for its window, which AlphaBetaFailSoft relates to plain minimax |
| Agent.AlphaBetaAgent.Min | alpha_beta_agent.py:136-155 | `min` returns the alpha-beta value and column of AlphaBeta for its window |
| Agent.AlphaBetaAgent.Go | alpha_beta_agent.py:105-113 | `go` sets `me` to the player to move and `you` to the other player, and returns the column of plain minimax at `max_depth`, which is None or a free column, and is a column whenever one is free and `max_depth` is 1 or 2 |

## Left out

- The board class itself is not part of this model. The board is a value with
  the fields the agent reads. `free_cols`, `copy` and `add_token` are modelled
  from how the agent uses them: the free columns in ascending order, and a
  token dropped into the lowest empty cell with the move passing to the other
  player. `get_outcome` and `is_any_line_at` are functions in `Rules` handed to
  the agent, because their code is not part of this model. The agent relies on
  nothing about them.
- The base class `agent.Agent` and the `name` constructor argument carry no
  logic of the search and are not modelled.
- `max` and `min` also return the best successor board (`best_brd`, the `b` of
  the result tuple). It is never read, so only the value and the column are
  modelled.
- Python's `None` in `me` and `you` before the first `go` is the constant
  `NoPlayer` (-1), which equals no player number or outcome.
- The board must have a line length of at least 2. For n = 1, `10 ** (n - 2)`
  is the float 0.1, and floating point is not modelled.
- A negative `max_depth` is excluded: depths are natural numbers. The constructor
  documents the parameter as the maximum search depth. With a negative value
  the test `n == 0` never holds, so the search would recurse until the board is
  full and never call `heuristic`. That behaviour is not modelled.
- How much pruning saves is not modelled. The lemmas state only that pruning
  does not change the result.
- Agent.AlphaBetaAgent.Max: the contract states equality with the specification
  function AlphaBeta. The fail-soft and root-exactness facts are stated about
  that function in the lemmas, not repeated in the method.
- Agent.AlphaBetaAgent.Min: as for Max.
- Search.WinningMoveChosen: proved for a one-ply search only. At greater depth
  a won board is not a leaf, because the search does not stop at won boards, so
  the value of a winning column depends on the plies after it and no such
  property is claimed.
- Search.BlockingMoveChosen: proved for a two-ply search only, for the same
  reason. At depth 4 and beyond, the plies after a losing board still count,
  so no blocking property is claimed there.

## Findings

| source | as written | input that shows it | evidently intended | confidence | as-written member | corrected member |
|---|---|---|---|---|---|---|
| alpha_beta_agent.py:104-134 | `best_col` starts as `None` and changes only when a child value is strictly greater than `best_value`, which starts at -inf; a child that scores -inf (a full board reached with `max` to move, line 134) never replaces it | a board 1 wide and 2 high, both cells empty, player 1 to move, `max_depth` 3: column 0 is free, yet `go` returns `None` | `max` also takes a child while `best_col` is `None` (`value > best_value or best_col is None`), so `go` returns a legal column whenever one is free, as its own note at line 104 asks, with the same value as before | high (proved on the model; not executed) | Search.EvenEndgameNoColumn | Search.MaxLoopCorrected, Search.CorrectedRootPicksColumn, Search.EvenEndgameCorrected |
