# Tic-Tac-Toe engine: a verified model

This project models the game engine of a Python Tic-Tac-Toe player, the
single file `tictactoe.py`. The engine keeps a 3x3 board of `X`, `O` and
empty cells. It derives the player to move from the mark counts, lists the
available actions, applies an action to a copy of the board, finds the
winner on the eight lines, classifies finished boards, and picks a move by
exhaustive minimax search.

The model has two modules.

- `Game` (`game.dfy`) holds the rules. A `Board` is an immutable
  `seq<seq<Cell>>` of three rows of three cells. An `Action` is any pair of
  integers. `Result` returns `Moved(board)` or `InvalidAction`, where the
  program raises `ValueError`. `Winner` returns an `Option<Mark>`.
- `Search` (`search.dfy`) holds the search. `MaxValue` and `MinValue`
  recurse into each other, and the measure is the number of available
  actions. `Minimax` takes the iteration order of the action set as an
  explicit parameter `order`.

Counting and enumerating follow the nested row/column loops of the program:
cells are visited in row-major order, positions 0 to 8. The winner scans
the lines in the order `get_board_lines` lists them: three rows, three
columns, the main diagonal, then the anti-diagonal.

Three behaviours of the code are worth stating plainly.

- The drawing fallback of `minimax` is overwritten at every drawing
  action, so with no winning action the last drawing action is returned
  (tictactoe.py:121-122, `MinimaxTakesLastDraw`).
- The early "no winner" answer of `winner` fires on any board of nine
  equal cells, including a board filled with one mark (tictactoe.py:72-73,
  `LinesCollapse`, `Winner`). `AllSameBalancedIsInitial` shows that in play
  only the empty board has nine equal cells.
- When every action loses for the player to move, `minimax` returns no
  action, although the game is not over (tictactoe.py:123 and 133,
  `MinimaxGivesUpWhenAllLose`).

## Model

| member | source | states |
|---|---|---|
| Game.CountUpTo | tictactoe.py:26-34 | counts the cells holding a given value among the first k in row-major order, never more than k; `Count` is the count over all nine, and `CountsPartition` states that the three counts cover the board |
| Game.Player | tictactoe.py:22-39 | the player to move is derived from the counts; `InitialPlayer`, `PlayerOfBalanced` and `ResultAlternates` state that X moves first, that on a balanced board X moves exactly when the counts are equal, and that every move passes the turn |
| Game.Lines | tictactoe.py:151-164 | the eight lines of the board: three rows, three columns, two diagonals; `LinesCollapse`, `Winner` and `WinnerIgnoresLineOrder` state what the winner reads from them |
| Game.CountsPartition | tictactoe.py:26-34 | the empty, X and O counts of any board add up to nine |
| Game.InitialState | tictactoe.py:13-19 | every in-range cell of the starting board is empty |
| Game.InitialActions | tictactoe.py:13-19 | the starting board offers nine actions |
| Game.InitialPlayer | tictactoe.py:26-39 | the starting board has no X and no O, and X moves first |
| Game.InitialBalanced | tictactoe.py:13-19 | the starting board satisfies the alternation invariant (X count equals O count or exceeds it by one) |
| Game.PlayerOfBalanced | tictactoe.py:36-39 | on a balanced board X moves exactly when the two counts are equal, and O exactly when X leads by one |
| Game.EmptyCellsUpTo | tictactoe.py:46-50 | the row-major scan collects exactly the empty in-range cells before position k, in strictly increasing position, as many as there are empty cells |
| Game.Actions | tictactoe.py:42-51 | an action is available exactly when it is in range and names an empty cell; there are as many as empty cells |
| Game.ActionsAndMarksFillBoard | tictactoe.py:42-51 | available actions plus X marks plus O marks number nine |
| Game.Place | tictactoe.py:60-61 | the copied board holds the mark at the target and agrees with the input at every other cell |
| Game.Result | tictactoe.py:54-63 | a move succeeds exactly when the cell is in range and empty; it writes the mover's mark there, keeps every other cell, and removes exactly that action from the available ones |
| Game.PlaceCountsUpTo | tictactoe.py:60-61 | filling an empty cell moves one cell from the empty count to the count of the placed mark |
| Game.ResultCounts | tictactoe.py:59-62 | a move adds one mark for the mover and leaves the opponent's count alone |
| Game.ResultAlternates | tictactoe.py:59-62 | a move keeps a balanced board balanced and hands the turn to the other player |
| Game.LinesCollapse | tictactoe.py:70-73 | the eight lines collapse to one distinct line exactly when all nine cells are equal, which includes a board full of one mark |
| Game.WinningLineCompletes | tictactoe.py:76 | a line passes the test "no empty cell and one distinct value" exactly when all three cells hold the same mark |
| Game.FirstWinningLine | tictactoe.py:75-78 | the scan returns a mark only if some line is complete in it, and returns nothing exactly when no line is complete in X or in O |
| Game.Winner | tictactoe.py:66-78 | a board of nine equal cells has no winner; otherwise there is no winner exactly when neither mark completes a line, and a returned mark completes a line |
| Game.WinnerIgnoresLineOrder | tictactoe.py:151-164 | scanning the set of lines in any order gives the same winner, unless both marks complete a line |
| Game.MoveCompletesOnlyMoverLines | tictactoe.py:59-62 | a move changes only the target cell, so it cannot complete a line of the mark that did not move |
| Game.UnfinishedHasNoLine | tictactoe.py:81-93 | an unfinished board has no complete line of either mark |
| Game.NoDoubleLineAfterMove | tictactoe.py:75-78 | after a move made on an unfinished board at most one mark has a complete line, so the line order the winner scan uses never decides its answer in play |
| Game.AllSameBalancedIsInitial | tictactoe.py:71-73 | a balanced board of nine equal cells is the starting board, so in play the collapse rule fires only on the empty board |
| Game.Terminal | tictactoe.py:81-93 | the game is over exactly when there is a winner or every cell is filled |
| Game.Utility | tictactoe.py:96-103 | the utility is -1, 0 or 1; it is 1 exactly when X wins and -1 exactly when O wins |
| Search.MaxValue | tictactoe.py:135-141 | the value is an outcome; on a finished board it is the utility; otherwise it bounds the min-value of every child from above |
| Search.MinValue | tictactoe.py:143-149 | the value is an outcome; on a finished board it is the utility; otherwise it bounds the max-value of every child from below |
| Search.MaxOver | tictactoe.py:138-140 | the loop result is an outcome at least the min-value of every listed child |
| Search.MinOver | tictactoe.py:146-148 | the loop result is an outcome at most the max-value of every listed child |
| Search.MaxOverAttained | tictactoe.py:138-140 | the loop result is the min-value of one of the listed children |
| Search.MinOverAttained | tictactoe.py:146-148 | the loop result is the max-value of one of the listed children |
| Search.MaxValueAttained | tictactoe.py:135-141 | on an unfinished board the max-value equals the min-value of some child, so it is the maximum over the children |
| Search.MinValueAttained | tictactoe.py:143-149 | on an unfinished board the min-value equals the max-value of some child, so it is the minimum over the children |
| Search.ValueIsOptimum | tictactoe.py:135-149 | for either mover, the value of an unfinished board is at least as good for the mover as every reply and equals one of them |
| Search.Replies | tictactoe.py:117-118 | the reply values follow the iteration order position by position |
| Search.Pick | tictactoe.py:114-123 | an action the scan returns, other than the fallback it started with, has the favourable value or 0 |
| Search.PickTakesFirst | tictactoe.py:117-120 | the scan returns the first action with the favourable value |
| Search.PickKeepsTie | tictactoe.py:114-123 | with no favourable and no drawing action, the scan returns its fallback |
| Search.PickTakesLastDraw | tictactoe.py:121-123 | with no favourable action, the scan returns the last drawing action |
| Search.PickIsOptimal | tictactoe.py:114-133 | when the best entry for the mover is v, the scan returns an action exactly when v does not lose, and that action is worth v |
| Search.Minimax | tictactoe.py:106-133 | a finished board gives no action; a returned action is available and its reply value is the favourable value or a draw |
| Search.MinimaxTakesFirstWin | tictactoe.py:115-130 | if some action wins for the mover, minimax returns the first winning action in iteration order, for X and for O |
| Search.MinimaxTakesLastDraw | tictactoe.py:119-132 | if no action wins, minimax returns the last drawing action in iteration order |
| Search.MinimaxGivesUpWhenAllLose | tictactoe.py:114-133 | if every action loses for the mover, minimax returns no action even though the game is not over |
| Search.RepliesAttainValue | tictactoe.py:135-149 | the value of the position occurs among the reply values of any enumeration |
| Search.RepliesBoundedByValue | tictactoe.py:135-149 | each reply value is an outcome, and the mover likes the position's value at least as much |
| Search.MinimaxIsOptimal | tictactoe.py:106-133 | minimax returns an action exactly when the mover can force at least a draw, and the returned action achieves the value of the position |

## Left out

- Copying with `copy.deepcopy`: boards are immutable values, so the input of `Result` is unchanged by construction.
- The `math.inf` starting values of `max_value` and `min_value`: an unfinished board always has an action, so `MaxOver` and `MinOver` fold over a non-empty list and start from the first child's value.
- Python set iteration order: `Actions` is a set, and `MaxValue`/`MinValue` visit it in row-major order, which cannot change a maximum or minimum. `Minimax` receives the order as a parameter, and every property holds for every order.
- Game.Winner: for a board on which both marks complete a line, which mark is returned depends on the iteration order of the line set. The model scans the lines in listing order, and `WinnerIgnoresLineOrder` covers only boards where at most one mark completes a line. `NoDoubleLineAfterMove` shows that a move made on an unfinished board never produces a board with lines of both marks.
- Search.Pick: the program computes each reply value inside the loop and stops at the first favourable one. The model computes all reply values first. The functions are pure, so the returned action is the same; the saved work is not modelled.
- The `is X` test in `minimax` is modelled as equality on the `Mark` datatype.
- Boards that are not 3x3, cells holding values other than `X`, `O` and `None`, and actions that are not pairs of integers are excluded by the types. In the program, a hashable action outside the action set raises `ValueError`, but an unhashable action such as a list raises `TypeError` in the membership test, and a float pair equal to an available pair passes that test and raises `TypeError` when used as an index. Only the `ValueError` path is modelled, as `InvalidAction`.
- Game.Player carries no contract of its own: its rule is the definition. `PlayerOfBalanced`, `InitialPlayer` and `ResultAlternates` state its properties.
- Game.Lines carries only its length as a contract: the listing is the definition. `LinesCollapse`, `Winner` and `WinnerIgnoresLineOrder` state its properties.
- Concrete game-tree values, such as the starting position being a draw, are not proved: they need an evaluation of the whole game tree.
- Running time of the exhaustive search is not modelled.
