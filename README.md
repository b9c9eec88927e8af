# Tic-tac-toe minimax engine, modelled in Dafny

This project models a small tic-tac-toe engine. The engine works on a 3x3
board whose cells hold X, O or nothing. It has four parts:

- rules that infer whose turn it is, list the legal moves and play a move;
- rules that find the winner, decide that the game is over and score a
  finished game;
- a recursive minimax search that computes the value of a board (1 when X
  wins, -1 when O wins, 0 for a draw);
- a best-move search that returns the move that keeps that value.

Everything lives in one module, `TicTacToe`, in `tictactoe.dfy`.

- **Pure rules.** The rules that the engine states as expressions are Dafny
  functions over board values: the initial board, the player to move, the
  winner, the terminal test and the utility.
- **Methods.** The operations that the engine computes step by step are
  methods:
  - `Actions`: two nested loops that collect the empty cells.
  - `Result`: copies the board and writes one cell.
  - `MinimaxValue`: folds max or min over the moves around its recursive call.
  - `Minimax`: loops over the moves and keeps the strictly best one.
- **Specification.** Each method is proved against its specification
  functions:
  - `LegalActions` specifies `Actions`;
  - `Successor` specifies the board after a move;
  - `Value` defines the minimax value by recursion;
  - the lemmas relate these functions to the rules.

## Model

| member | source | states |
|---|---|---|
| TicTacToe.Player | tictactoe.py:22-29 | The player to move is never empty, and it is X exactly when X and O have placed equally many marks (otherwise O). |
| TicTacToe.InitialStateFacts | tictactoe.py:13-19 | On the empty board X moves first, all nine cells are empty and are the nine legal moves, and nobody has won, so the game is not over. |
| TicTacToe.LegalActions | tictactoe.py:32-43 | The action set holds a pair exactly when it names a cell of the grid that is empty: both directions of the membership. |
| TicTacToe.Actions | tictactoe.py:32-43 | The nested row and column loops build exactly the set of legal moves. |
| TicTacToe.FullBoardHasNoActions | tictactoe.py:32-43 | A board has no legal move exactly when no cell is empty. |
| TicTacToe.Normalize | tictactoe.py:54 | A coordinate pair reaches a cell exactly when both indices are between -3 and 2, and then it reaches the cell of its indices taken modulo 3 (negative list indices count from the end). |
| TicTacToe.Successor | tictactoe.py:50-57 | After a legal move the new board equals the old one in every cell except the chosen one, which holds the player to move. There is one empty cell fewer, the mover has one mark more and the opponent's count is unchanged. |
| TicTacToe.Result | tictactoe.py:46-59 | The move fails with the invalid-action error exactly when the addressed cell is occupied, and with an indexing error exactly when the coordinates reach no cell. Otherwise it yields the successor board for the addressed cell. |
| TicTacToe.TurnFlips | tictactoe.py:26-29 | On a board where X is level with O or one mark ahead, a legal move keeps that balance and passes the turn to the other player. |
| TicTacToe.PlayCounts | tictactoe.py:46-59 | Playing n legal moves from a board where k moves were made leads to a board where X has ceil((k+n)/2) marks, O has floor((k+n)/2) marks and 9-k-n cells are empty. |
| TicTacToe.PlayersAlternate | tictactoe.py:22-29 | In every game played from the empty board, X has ceil(n/2) marks and O floor(n/2) after n moves, 9-n cells are empty, and X is to move exactly when n is even. |
| TicTacToe.Winner | tictactoe.py:62-79 | A winner, when there is one, is a player's mark and never the empty cell. |
| TicTacToe.WinnerIsFirstOwner | tictactoe.py:62-79 | The winner equals a table-driven reference: the owner of the first of the eight lines, taken in the order rows, columns, main diagonal, anti-diagonal, that one player holds entirely. |
| TicTacToe.FirstOwnerIsFirst | tictactoe.py:62-79 | Over any list of lines, the reference result is None exactly when no line is owned; otherwise it is the owner of an owned line before which no line is owned. |
| TicTacToe.WinnerIsFirstCompleteLine | tictactoe.py:62-79 | There is no winner exactly when no line is held by one player; otherwise the winner is the mark of the first such line in the checking order. |
| TicTacToe.TerminalIff | tictactoe.py:82-94 | The game is over exactly when somebody has won or no legal move (no empty cell) is left. |
| TicTacToe.Utility | tictactoe.py:97-107 | The score is between -1 and 1. It is 1 exactly when X has won, -1 exactly when O has won and 0 exactly when nobody has won. |
| TicTacToe.Value | tictactoe.py:141-160 | The minimax value of every board is between -1 and 1. The recursion terminates because every move empties one cell fewer. |
| TicTacToe.BestFromBounds | tictactoe.py:148-160 | For the player to move, the fold over the cells in row-major order is no worse than the value of any legal move it passes. |
| TicTacToe.BestFromReached | tictactoe.py:148-160 | When the fold passes at least one legal move, some legal move it passes reaches exactly the fold's value. |
| TicTacToe.ValueIsExtremum | tictactoe.py:141-160 | On a board in play, no legal move leads to a better value for the player to move than the board's value (a maximum for X, a minimum for O), and some legal move leads to exactly that value. |
| TicTacToe.MinimaxValue | tictactoe.py:141-160 | The search, visiting the moves in any order and taking max (X) or min (O) starting from below or above every value, returns the board's minimax value. On a finished game that value is its utility. |
| TicTacToe.Minimax | tictactoe.py:110-139 | Given any visiting order of the set of legal moves: no move exactly when the game is over. Otherwise the move is legal, leads to the board's minimax value, and is the first move in the visiting order that reaches that value, because only strictly better moves replace the choice. |
| TicTacToe.WinningMoveHasBestValue | tictactoe.py:110-160 | When the player to move can complete a line in one move, the board's value is the best possible for that player (1 for X, -1 for O). |

## Left out

- The engine's representation of minus and plus infinity as starting values
  is modelled by the integers -2 and 2. Every value is between -1 and 1, so
  the comparisons come out the same.
- The iteration order of the set of actions is unspecified in the engine.
  `Minimax` takes that order as an input sequence that lists exactly the
  legal moves, and its result is stated relative to that order.
  `MinimaxValue` visits the moves in an arbitrary order, since its result
  does not depend on the order.
- The deep copy in the move is a value copy: boards are immutable sequences,
  so the caller's board is unchanged by construction. No aliasing is
  modelled.
- Malformed boards that are not 3x3, cells other than X, O and nothing, and
  moves that are not pairs are not modelled; the board type is 3x3 by
  construction.
- Coordinates outside 0..2: the engine raises no invalid-action error for
  them. Python list indexing wraps -3..-1 to the end of the row and raises
  an indexing error for anything else, and `Result` models exactly that.
  `Play` stops at the first move that does not name an empty cell of the
  grid, and does not model the wrap-around of negative indices.
- The turn inference is only meaningful on boards a game can reach. The
  model states this through `Balanced`, the player alternation and the
  count lemmas. It does not prove that every balanced board is reachable.
- Game-level facts that the engine does not state are not proved, for
  example that perfect play from the empty board is a draw.
- The user interface, input handling and program entry point are not part
  of this model.
