/**
 * A model of a 3x3 tic-tac-toe engine: the board rules (whose turn it is,
 * the legal moves, the board after a move, the winner, the terminal test and
 * the utility) and an exhaustive minimax search over them.
 *
 * The rules are pure functions over board values. The operations that the
 * engine computes with loops (the set of actions, the move, the minimax
 * search) are methods proved against those functions.
 */
module TicTacToe {

  datatype Option<T> = None | Some(value: T)

  /** A square of the grid: a mark of one of the two players, or nothing yet. */
  datatype Cell = X | O | Empty

  /** A board is three rows of three cells, indexed board[row][column]. */
  type Board = b: seq<seq<Cell>> | |b| == 3 && |b[0]| == 3 && |b[1]| == 3 && |b[2]| == 3
    witness [[Empty, Empty, Empty], [Empty, Empty, Empty], [Empty, Empty, Empty]]

  /** A move, as the pair (row, column). */
  type Action = (int, int)

  predicate InRange(a: Action) {
    0 <= a.0 < 3 && 0 <= a.1 < 3
  }

  /** The cell a move refers to. */
  function Mark(b: Board, a: Action): Cell
    requires InRange(a)
  {
    b[a.0][a.1]
  }

  /** A move is legal on a board when it names an empty cell of the grid. */
  predicate IsLegal(b: Board, a: Action) {
    InRange(a) && b[a.0][a.1] == Empty
  }

  function Opponent(p: Cell): Cell {
    if p == X then O else X
  }

  // ---------------------------------------------------------------------------
  // Initial state and turn inference
  // ---------------------------------------------------------------------------

  function InitialState(): Board {
    [[Empty, Empty, Empty], [Empty, Empty, Empty], [Empty, Empty, Empty]]
  }

  /** How many cells of a row hold mark c (a list's count). */
  function RowCount(row: seq<Cell>, c: Cell): nat {
    if row == [] then 0 else (if row[0] == c then 1 else 0) + RowCount(row[1..], c)
  }

  /** How many cells of the board hold mark c: the sum of the rows' counts. */
  function Count(b: Board, c: Cell): nat {
    RowCount(b[0], c) + RowCount(b[1], c) + RowCount(b[2], c)
  }

  function EmptyCount(b: Board): nat {
    Count(b, Empty)
  }

  /** The player to move: X when both players have placed as many marks, O otherwise. */
  function Player(b: Board): (p: Cell)
    ensures p != Empty
    ensures p == X <==> Count(b, X) == Count(b, O)
  {
    if Count(b, X) == Count(b, O) then X else O
  }

  /**
   * The boards a legal game can reach have X either level with O or one mark
   * ahead; the turn inference is only meaningful on these.
   */
  predicate Balanced(b: Board) {
    Count(b, X) == Count(b, O) || Count(b, X) == Count(b, O) + 1
  }

  lemma {:induction false} RowCountUpdate(row: seq<Cell>, j: nat, m: Cell, c: Cell)
    requires j < |row|
    ensures RowCount(row[j := m], c)
            == RowCount(row, c) - (if row[j] == c then 1 else 0) + (if m == c then 1 else 0)
    decreases j
  {
    if j > 0 {
      RowCountUpdate(row[1..], j - 1, m, c);
      assert row[j := m][1..] == row[1..][j - 1 := m];
    }
  }

  lemma {:induction false} RowCountZero(row: seq<Cell>, c: Cell)
    ensures RowCount(row, c) == 0 <==> c !in row
    decreases |row|
  {
    if row != [] {
      RowCountZero(row[1..], c);
      assert row == [row[0]] + row[1..];
    }
  }

  // ---------------------------------------------------------------------------
  // Actions
  // ---------------------------------------------------------------------------

  /** The set of moves available on a board: every empty cell. */
  function LegalActions(b: Board): (s: set<Action>)
    ensures forall a :: a in s <==> IsLegal(b, a)
  {
    set i, j | 0 <= i < 3 && 0 <= j < 3 && b[i][j] == Empty :: (i, j)
  }

  /** The cells of the grid in row-major order, the order of the nested loops over rows and columns. */
  const ALL_CELLS: seq<Action> :=
    [(0, 0), (0, 1), (0, 2), (1, 0), (1, 1), (1, 2), (2, 0), (2, 1), (2, 2)]

  lemma AllCellsCover(a: Action)
    requires InRange(a)
    ensures exists m :: 0 <= m < 9 && ALL_CELLS[m] == a
  {
    var m := 3 * a.0 + a.1;
    assert ALL_CELLS[m] == a by {
      if a.0 == 0 {
        assert m == a.1;
      } else if a.0 == 1 {
        assert m == 3 + a.1;
      } else {
        assert m == 6 + a.1;
      }
    }
  }

  /** The engine collects the empty cells into a set with two nested loops. */
  method Actions(b: Board) returns (s: set<Action>)
    ensures s == LegalActions(b)
  {
    s := {};
    for i := 0 to 3
      invariant forall a :: a in s <==> IsLegal(b, a) && a.0 < i
    {
      for j := 0 to 3
        invariant forall a :: a in s <==> IsLegal(b, a) && (a.0 < i || (a.0 == i && a.1 < j))
      {
        if b[i][j] == Empty {
          s := s + {(i, j)};
        }
      }
    }
  }

  // ---------------------------------------------------------------------------
  // Moves
  // ---------------------------------------------------------------------------

  /** The board after the player to move takes the empty cell a. */
  function Successor(b: Board, a: Action): (r: Board)
    requires IsLegal(b, a)
    ensures forall i, j :: 0 <= i < 3 && 0 <= j < 3 ==>
              r[i][j] == if (i, j) == a then Player(b) else b[i][j]
    ensures EmptyCount(r) == EmptyCount(b) - 1
    ensures Count(r, Player(b)) == Count(b, Player(b)) + 1
    ensures Count(r, Opponent(Player(b))) == Count(b, Opponent(Player(b)))
  {
    var p := Player(b);
    RowCountUpdate(b[a.0], a.1, p, Empty);
    RowCountUpdate(b[a.0], a.1, p, p);
    RowCountUpdate(b[a.0], a.1, p, Opponent(p));
    b[a.0 := b[a.0][a.1 := p]]
  }

  /**
   * The outcome of a move: the new board, the error for an occupied cell,
   * or the indexing error for a coordinate outside the grid.
   */
  datatype MoveResult = Moved(board: Board) | InvalidAction | OutOfRange

  /**
   * The cell a coordinate pair reaches by list indexing, where an index from
   * -3 to -1 counts from the end of its row or column and any other index
   * outside 0..2 reaches nothing.
   */
  function Normalize(a: Action): (r: Option<Action>)
    ensures r.Some? <==> -3 <= a.0 < 3 && -3 <= a.1 < 3
    ensures r.Some? ==> InRange(r.value) && r.value.0 == a.0 % 3 && r.value.1 == a.1 % 3
    ensures InRange(a) ==> r == Some(a)
  {
    if -3 <= a.0 < 3 && -3 <= a.1 < 3 then
      Some((if a.0 < 0 then a.0 + 3 else a.0, if a.1 < 0 then a.1 + 3 else a.1))
    else None
  }

  /**
   * The move: the board is copied, the player to move is read off the
   * original, and the copy's cell is written unless it is already occupied.
   * Boards are values, so the caller's board is never changed.
   */
  method Result(b: Board, a: Action) returns (r: MoveResult)
    ensures r.OutOfRange? <==> Normalize(a).None?
    ensures Normalize(a).Some? ==> (r.InvalidAction? <==> !IsLegal(b, Normalize(a).value))
    ensures r.Moved? ==> Normalize(a).Some? && r.board == Successor(b, Normalize(a).value)
  {
    var newBoard := b;
    var currentPlayer := Player(b);
    var cell := Normalize(a);
    if cell.None? {
      return OutOfRange;
    }
    var (i, j) := cell.value;
    if newBoard[i][j] != Empty {
      return InvalidAction;
    }
    newBoard := newBoard[i := newBoard[i][j := currentPlayer]];
    return Moved(newBoard);
  }

  /** Plays a sequence of moves in turn; None as soon as one of them names an occupied cell. */
  function Play(b: Board, moves: seq<Action>): Option<Board>
    decreases |moves|
  {
    if moves == [] then Some(b)
    else if !IsLegal(b, moves[0]) then None
    else Play(Successor(b, moves[0]), moves[1..])
  }

  // ---------------------------------------------------------------------------
  // Winner, terminal test, utility
  // ---------------------------------------------------------------------------

  /** Three cells hold the same mark and it is not Empty. */
  predicate SameMark(p: Cell, q: Cell, r: Cell) {
    p == q && q == r && r != Empty
  }

  /** The rows from row i downwards, first complete row wins. */
  function RowWinner(b: Board, i: nat): Option<Cell>
    requires i <= 3
    decreases 3 - i
  {
    if i == 3 then None
    else if SameMark(b[i][0], b[i][1], b[i][2]) then Some(b[i][0])
    else RowWinner(b, i + 1)
  }

  /** The columns from column j rightwards, first complete column wins. */
  function ColumnWinner(b: Board, j: nat): Option<Cell>
    requires j <= 3
    decreases 3 - j
  {
    if j == 3 then None
    else if SameMark(b[0][j], b[1][j], b[2][j]) then Some(b[0][j])
    else ColumnWinner(b, j + 1)
  }

  /** Rows top to bottom, then columns left to right, then the two diagonals. */
  function Winner(b: Board): (w: Option<Cell>)
    ensures w.Some? ==> w.value != Empty
  {
    if RowWinner(b, 0).Some? then RowWinner(b, 0)
    else if ColumnWinner(b, 0).Some? then ColumnWinner(b, 0)
    else if SameMark(b[0][0], b[1][1], b[2][2]) then Some(b[0][0])
    else if SameMark(b[0][2], b[1][1], b[2][0]) then Some(b[0][2])
    else None
  }

  /** Some row still has an empty cell. */
  predicate HasEmpty(b: Board) {
    exists i :: 0 <= i < 3 && Empty in b[i]
  }

  /** The game is over once somebody has won or the grid is full. */
  predicate Terminal(b: Board) {
    Winner(b).Some? || !HasEmpty(b)
  }

  /** The score of a finished game: 1 when X has won, -1 when O has won, 0 otherwise. */
  function Utility(b: Board): (u: int)
    ensures -1 <= u <= 1
    ensures u == 1 <==> Winner(b) == Some(X)
    ensures u == -1 <==> Winner(b) == Some(O)
    ensures u == 0 <==> Winner(b).None?
  {
    match Winner(b)
    case Some(X) => 1
    case Some(O) => -1
    case _ => 0
  }

  // A reference description of the winner: the eight lines in the order of
  // the checks, and the first of them that one player holds entirely.

  type Line = (Action, Action, Action)

  const LINES: seq<Line> := [
    ((0, 0), (0, 1), (0, 2)), ((1, 0), (1, 1), (1, 2)), ((2, 0), (2, 1), (2, 2)),
    ((0, 0), (1, 0), (2, 0)), ((0, 1), (1, 1), (2, 1)), ((0, 2), (1, 2), (2, 2)),
    ((0, 0), (1, 1), (2, 2)), ((0, 2), (1, 1), (2, 0))
  ]

  predicate LineInRange(l: Line) {
    InRange(l.0) && InRange(l.1) && InRange(l.2)
  }

  /** The player holding all three cells of a line, if any. */
  function Owner(b: Board, l: Line): Option<Cell>
    requires LineInRange(l)
  {
    if SameMark(Mark(b, l.0), Mark(b, l.1), Mark(b, l.2)) then Some(Mark(b, l.0)) else None
  }

  predicate AllInRange(lines: seq<Line>) {
    forall n :: 0 <= n < |lines| ==> LineInRange(lines[n])
  }

  /** The owner of the first owned line of a list of lines. */
  function FirstOwner(b: Board, lines: seq<Line>): Option<Cell>
    requires AllInRange(lines)
  {
    if lines == [] then None
    else if Owner(b, lines[0]).Some? then Owner(b, lines[0])
    else FirstOwner(b, lines[1..])
  }

  lemma {:induction false} FirstOwnerIsFirst(b: Board, lines: seq<Line>)
    requires AllInRange(lines)
    ensures FirstOwner(b, lines).None? <==> forall n :: 0 <= n < |lines| ==> Owner(b, lines[n]).None?
    ensures FirstOwner(b, lines).Some? ==>
              exists n :: 0 <= n < |lines| && Owner(b, lines[n]) == FirstOwner(b, lines)
                && forall n' :: 0 <= n' < n ==> Owner(b, lines[n']).None?
  {
    if lines != [] {
      var rest := lines[1..];
      FirstOwnerIsFirst(b, rest);
      if Owner(b, lines[0]).Some? {
        assert Owner(b, lines[0]) == FirstOwner(b, lines);
      } else {
        assert forall n :: 1 <= n < |lines| ==> lines[n] == rest[n - 1];
        if FirstOwner(b, rest).Some? {
          var n :| 0 <= n < |rest| && Owner(b, rest[n]) == FirstOwner(b, rest)
                   && forall n' :: 0 <= n' < n ==> Owner(b, rest[n']).None?;
          assert Owner(b, lines[n + 1]) == FirstOwner(b, lines);
          assert forall n' :: 0 <= n' < n + 1 ==> Owner(b, lines[n']).None? by {
            forall n' | 0 <= n' < n + 1 ensures Owner(b, lines[n']).None? {
              if n' > 0 {
                assert lines[n'] == rest[n' - 1];
              }
            }
          }
        }
      }
    }
  }

  /** One step of FirstOwner along LINES. */
  lemma FirstOwnerStep(b: Board, n: nat)
    requires n < |LINES|
    ensures FirstOwner(b, LINES[n..])
            == if Owner(b, LINES[n]).Some? then Owner(b, LINES[n]) else FirstOwner(b, LINES[n + 1..])
  {
    assert LINES[n..][1..] == LINES[n + 1..];
  }

  lemma WinnerIsFirstOwner(b: Board)
    ensures Winner(b) == FirstOwner(b, LINES)
  {
    assert LINES[0..] == LINES;
    FirstOwnerStep(b, 0);
    FirstOwnerStep(b, 1);
    FirstOwnerStep(b, 2);
    FirstOwnerStep(b, 3);
    FirstOwnerStep(b, 4);
    FirstOwnerStep(b, 5);
    FirstOwnerStep(b, 6);
    FirstOwnerStep(b, 7);
    assert LINES[8..] == [];
  }

  /**
   * The winner is the mark of the first line, in the order rows, columns,
   * main diagonal, anti-diagonal, whose three cells hold one player's mark,
   * and None exactly when no line does.
   */
  lemma WinnerIsFirstCompleteLine(b: Board)
    ensures Winner(b).None? <==> forall n :: 0 <= n < |LINES| ==> Owner(b, LINES[n]).None?
    ensures Winner(b).Some? ==>
              exists n :: 0 <= n < |LINES| && Owner(b, LINES[n]) == Winner(b)
                && forall n' :: 0 <= n' < n ==> Owner(b, LINES[n']).None?
  {
    WinnerIsFirstOwner(b);
    FirstOwnerIsFirst(b, LINES);
  }

  lemma {:induction false} HasEmptyIff(b: Board)
    ensures HasEmpty(b) <==> LegalActions(b) != {}
    ensures HasEmpty(b) <==> EmptyCount(b) > 0
  {
    RowCountZero(b[0], Empty);
    RowCountZero(b[1], Empty);
    RowCountZero(b[2], Empty);
    if HasEmpty(b) {
      var i :| 0 <= i < 3 && Empty in b[i];
      var j :| 0 <= j < 3 && b[i][j] == Empty;
      assert (i, j) in LegalActions(b);
    }
    if LegalActions(b) != {} {
      var a :| a in LegalActions(b);
      assert b[a.0][a.1] == Empty;
      assert Empty in b[a.0];
    }
  }

  /** The game is over exactly when somebody has won or no move is left. */
  lemma TerminalIff(b: Board)
    ensures Terminal(b) <==> Winner(b).Some? || LegalActions(b) == {}
    ensures Terminal(b) <==> Winner(b).Some? || EmptyCount(b) == 0
  {
    HasEmptyIff(b);
  }

  lemma NonTerminalHasMove(b: Board)
    requires !Terminal(b)
    ensures exists m :: 0 <= m < 9 && IsLegal(b, ALL_CELLS[m])
  {
    HasEmptyIff(b);
    var a :| a in LegalActions(b);
    AllCellsCover(a);
  }

  // ---------------------------------------------------------------------------
  // Minimax
  // ---------------------------------------------------------------------------

  function Max(v: int, w: int): int { if v >= w then v else w }
  function Min(v: int, w: int): int { if v <= w then v else w }

  /** The value of the search before any move is seen: below (X) or above (O) every value. */
  function Sentinel(p: Cell): int {
    if p == X then -2 else 2
  }

  /** Combines two values for player p: X keeps the larger, O the smaller. */
  function Better(p: Cell, v: int, w: int): int {
    if p == X then Max(v, w) else Min(v, w)
  }

  /** Value v is at most as good for player p as value best. */
  predicate NoBetter(p: Cell, v: int, best: int) {
    if p == X then v <= best else v >= best
  }

  /** The minimax value of the board that a legal move leads to. */
  function ChildValue(b: Board, a: Action): int
    requires IsLegal(b, a)
  {
    Value(Successor(b, a))
  }

  /** The minimax value of a board, for X: terminal boards score their utility. */
  function Value(b: Board): (v: int)
    ensures -1 <= v <= 1
    decreases EmptyCount(b), 10
  {
    if Terminal(b) then Utility(b)
    else
      NonTerminalHasMove(b);
      BestFrom(b, 0)
  }

  /** The best value for the player to move over the legal moves among ALL_CELLS[k..]. */
  function BestFrom(b: Board, k: nat): (r: int)
    requires k <= 9
    ensures (exists m :: k <= m < 9 && IsLegal(b, ALL_CELLS[m])) ==> -1 <= r <= 1
    ensures (forall m :: k <= m < 9 ==> !IsLegal(b, ALL_CELLS[m])) ==> r == Sentinel(Player(b))
    decreases EmptyCount(b), 9 - k
  {
    if k == 9 then Sentinel(Player(b))
    else if !IsLegal(b, ALL_CELLS[k]) then BestFrom(b, k + 1)
    else Better(Player(b), Value(Successor(b, ALL_CELLS[k])), BestFrom(b, k + 1))
  }

  /** The fold over ALL_CELLS[k..] is no worse for the player to move than any legal move it passes. */
  lemma {:induction false} BestFromBounds(b: Board, k: nat)
    requires k <= 9
    ensures forall m :: k <= m < 9 && IsLegal(b, ALL_CELLS[m]) ==>
              NoBetter(Player(b), Value(Successor(b, ALL_CELLS[m])), BestFrom(b, k))
    decreases 9 - k
  {
    if k < 9 {
      BestFromBounds(b, k + 1);
      var p := Player(b);
      var rest := BestFrom(b, k + 1);
      var a := ALL_CELLS[k];
      if IsLegal(b, a) {
        var v := Value(Successor(b, a));
        assert BestFrom(b, k) == Better(p, v, rest);
        assert NoBetter(p, rest, BestFrom(b, k));
      } else {
        assert BestFrom(b, k) == rest;
      }
    }
  }

  /** When ALL_CELLS[k..] holds a legal move, one of them reaches the fold's value. */
  lemma {:induction false} BestFromReached(b: Board, k: nat)
    requires k <= 9
    ensures (exists m :: k <= m < 9 && IsLegal(b, ALL_CELLS[m])) ==>
              exists m :: k <= m < 9 && IsLegal(b, ALL_CELLS[m])
                && Value(Successor(b, ALL_CELLS[m])) == BestFrom(b, k)
    decreases 9 - k
  {
    if k < 9 {
      BestFromReached(b, k + 1);
      var p := Player(b);
      var rest := BestFrom(b, k + 1);
      var a := ALL_CELLS[k];
      if IsLegal(b, a) {
        var v := Value(Successor(b, a));
        assert BestFrom(b, k) == Better(p, v, rest);
        if Better(p, v, rest) != v {
          assert exists m :: k + 1 <= m < 9 && IsLegal(b, ALL_CELLS[m]);
        }
      } else {
        assert BestFrom(b, k) == rest;
      }
    }
  }

  /**
   * On a board that is not over, the value is the best one the player to
   * move can reach in one move: no legal move leads to a better value for
   * that player, and some legal move leads to exactly this value.
   */
  lemma ValueIsExtremum(b: Board)
    requires !Terminal(b)
    ensures forall a :: a in LegalActions(b) ==> NoBetter(Player(b), ChildValue(b, a), Value(b))
    ensures exists a :: a in LegalActions(b) && ChildValue(b, a) == Value(b)
  {
    NonTerminalHasMove(b);
    BestFromBounds(b, 0);
    BestFromReached(b, 0);
    forall a | a in LegalActions(b)
      ensures NoBetter(Player(b), ChildValue(b, a), Value(b))
    {
      AllCellsCover(a);
    }
    var m :| 0 <= m < 9 && IsLegal(b, ALL_CELLS[m]) && Value(Successor(b, ALL_CELLS[m])) == BestFrom(b, 0);
    assert ALL_CELLS[m] in LegalActions(b);
  }

  /** Every move of s is legal on b. */
  ghost predicate AllLegal(b: Board, s: set<Action>) {
    forall a :: a in s ==> IsLegal(b, a)
  }

  /** No move of s leads to a value better than best for the player to move. */
  ghost predicate Bounded(b: Board, s: set<Action>, best: int) {
    forall a :: a in s ==> IsLegal(b, a) && NoBetter(Player(b), ChildValue(b, a), best)
  }

  /** Some move of s leads to value best. */
  ghost predicate Attained(b: Board, s: set<Action>, best: int) {
    exists a :: a in s && IsLegal(b, a) && ChildValue(b, a) == best
  }

  lemma BoundedExtend(b: Board, s: set<Action>, a: Action, previous: int, best: int)
    requires Bounded(b, s, previous) && IsLegal(b, a)
    requires NoBetter(Player(b), previous, best) && NoBetter(Player(b), ChildValue(b, a), best)
    ensures Bounded(b, s + {a}, best)
  {
  }

  /**
   * The state of the value search part-way through: todo holds the legal
   * moves not yet looked at, done the ones already looked at, and best is
   * the sentinel before the first move and afterwards a value some looked-at
   * move reaches and none beats.
   */
  ghost predicate Searching(b: Board, todo: set<Action>, done: set<Action>, best: int) {
    AllLegal(b, todo) &&
    (forall a :: IsLegal(b, a) ==> a in todo || a in done) &&
    (done == {} ==> best == Sentinel(Player(b))) &&
    (done != {} ==> Attained(b, done, best)) &&
    Bounded(b, done, best)
  }

  /**
   * One step of the value search: folding the value of a further legal move
   * into the running best with max (X) or min (O) keeps the search state.
   */
  lemma SearchStep(b: Board, todo: set<Action>, done: set<Action>, a: Action, previous: int)
    requires Searching(b, todo, done, previous) && a in todo && IsLegal(b, a)
    ensures Searching(b, todo - {a}, done + {a}, Better(Player(b), previous, ChildValue(b, a)))
  {
    var best := Better(Player(b), previous, ChildValue(b, a));
    BoundedExtend(b, done, a, previous, best);
    if best == ChildValue(b, a) {
      assert a in done + {a};
    } else {
      var w :| w in done && IsLegal(b, w) && ChildValue(b, w) == previous;
      assert w in done + {a};
    }
  }

  /**
   * A value reached by some legal move and no worse for the player to move
   * than every legal move is the board's minimax value.
   */
  lemma BestValueIsValue(b: Board, done: set<Action>, best: int)
    requires !Terminal(b)
    requires forall a :: IsLegal(b, a) ==> a in done
    requires Attained(b, done, best) && Bounded(b, done, best)
    ensures best == Value(b)
  {
    ValueIsExtremum(b);
    var a0 :| a0 in done && IsLegal(b, a0) && ChildValue(b, a0) == best;
    var a1 :| a1 in LegalActions(b) && ChildValue(b, a1) == Value(b);
    assert NoBetter(Player(b), ChildValue(b, a0), Value(b));
    assert NoBetter(Player(b), ChildValue(b, a1), best);
  }

  /** The engine's minimax value: a loop over the legal moves around the recursive search. */
  method MinimaxValue(b: Board) returns (v: int)
    ensures v == Value(b)
    decreases EmptyCount(b)
  {
    if Terminal(b) {
      return Utility(b);
    }
    var p := Player(b);
    var bestValue := Sentinel(p);
    var todo := Actions(b);
    ghost var done: set<Action> := {};
    while todo != {}
      invariant Searching(b, todo, done, bestValue)
      decreases |todo|
    {
      var action :| action in todo;
      var newBoard := Result(b, action);
      var moveValue := MinimaxValue(newBoard.board);
      assert moveValue == ChildValue(b, action);
      SearchStep(b, todo, done, action, bestValue);
      bestValue := Better(p, bestValue, moveValue);
      todo := todo - {action};
      done := done + {action};
    }
    TerminalIff(b);
    BestValueIsValue(b, done, bestValue);
    return bestValue;
  }

  /**
   * Move i of the visiting order is legal and leads to value v, and no move
   * visited before it does.
   */
  ghost predicate FirstReaching(b: Board, order: seq<Action>, i: nat, v: int) {
    i < |order| && IsLegal(b, order[i]) && ChildValue(b, order[i]) == v &&
    forall m :: 0 <= m < i ==> IsLegal(b, order[m]) && ChildValue(b, order[m]) != v
  }

  /** The first k moves of the order are legal and none beats best for the player to move. */
  ghost predicate Unbeaten(b: Board, order: seq<Action>, k: nat, best: int) {
    k <= |order| &&
    forall m :: 0 <= m < k ==> IsLegal(b, order[m]) && NoBetter(Player(b), ChildValue(b, order[m]), best)
  }

  /**
   * The state of the move search after the first k moves of the visiting
   * order: none of them beats the running best for the player to move, and
   * the current choice, when there is one, is the first of them that
   * reaches the running best.
   */
  ghost predicate Choosing(b: Board, order: seq<Action>, k: nat, best: int, choice: Option<Action>, first: nat) {
    Unbeaten(b, order, k, best) &&
    (choice.None? <==> k == 0) &&
    (k == 0 ==> best == Sentinel(Player(b))) &&
    (choice.Some? ==> first < k && FirstReaching(b, order, first, best) && order[first] == choice.value)
  }

  /** A further move no better than the new best, with the old best no better either, keeps the bound. */
  lemma UnbeatenExtend(b: Board, order: seq<Action>, k: nat, best: int, best': int)
    requires Unbeaten(b, order, k, best) && k < |order| && IsLegal(b, order[k])
    requires NoBetter(Player(b), best, best') && NoBetter(Player(b), ChildValue(b, order[k]), best')
    ensures Unbeaten(b, order, k + 1, best')
  {
    var p := Player(b);
    forall m | 0 <= m < k + 1
      ensures IsLegal(b, order[m]) && NoBetter(p, ChildValue(b, order[m]), best')
    {
      if m < k {
        assert NoBetter(p, ChildValue(b, order[m]), best);
      }
    }
  }

  /** A move strictly better than every move before it is the first to reach its value. */
  lemma StrictlyBetterIsFirst(b: Board, order: seq<Action>, k: nat, best: int)
    requires Unbeaten(b, order, k, best) && k < |order| && IsLegal(b, order[k])
    requires if Player(b) == X then ChildValue(b, order[k]) > best else ChildValue(b, order[k]) < best
    ensures FirstReaching(b, order, k, ChildValue(b, order[k]))
  {
    var p := Player(b);
    var v := ChildValue(b, order[k]);
    forall m | 0 <= m < k
      ensures IsLegal(b, order[m]) && ChildValue(b, order[m]) != v
    {
      assert NoBetter(p, ChildValue(b, order[m]), best);
    }
  }

  /**
   * One step of the move search, when the next move is strictly better for
   * the player to move than the running best: it becomes the choice.
   */
  lemma ChoosingImproves(b: Board, order: seq<Action>, k: nat, best: int, choice: Option<Action>, first: nat)
    requires Choosing(b, order, k, best, choice, first)
    requires k < |order| && IsLegal(b, order[k])
    requires if Player(b) == X then ChildValue(b, order[k]) > best else ChildValue(b, order[k]) < best
    ensures Choosing(b, order, k + 1, ChildValue(b, order[k]), Some(order[k]), k)
  {
    UnbeatenExtend(b, order, k, best, ChildValue(b, order[k]));
    StrictlyBetterIsFirst(b, order, k, best);
  }

  /**
   * One step of the move search, when the next move is no better for the
   * player to move than the running best: the choice stays.
   */
  lemma ChoosingKeeps(b: Board, order: seq<Action>, k: nat, best: int, choice: Option<Action>, first: nat)
    requires Choosing(b, order, k, best, choice, first)
    requires k < |order| && IsLegal(b, order[k])
    requires if Player(b) == X then ChildValue(b, order[k]) <= best else ChildValue(b, order[k]) >= best
    ensures Choosing(b, order, k + 1, best, choice, first)
  {
    UnbeatenExtend(b, order, k, best, best);
  }

  /**
   * Once a visiting order of all legal moves of a board in play is
   * exhausted, the choice is the first move of the order that reaches the
   * board's value.
   */
  lemma ChoiceIsBest(b: Board, order: seq<Action>, best: int, choice: Option<Action>, first: nat)
    requires !Terminal(b)
    requires forall a :: a in order <==> a in LegalActions(b)
    requires Choosing(b, order, |order|, best, choice, first)
    ensures choice.Some? && best == Value(b)
    ensures FirstReaching(b, order, first, Value(b)) && order[first] == choice.value
  {
    TerminalIff(b);
    var a0 :| a0 in LegalActions(b);
    assert a0 in order;
    ValueIsExtremum(b);
    var a1 :| a1 in LegalActions(b) && ChildValue(b, a1) == Value(b);
    assert a1 in order;
    var m :| 0 <= m < |order| && order[m] == a1;
    assert NoBetter(Player(b), ChildValue(b, order[m]), best);
    assert order[first] in LegalActions(b);
    assert NoBetter(Player(b), ChildValue(b, order[first]), Value(b));
  }

  /**
   * The engine's best move: None on a finished game, otherwise a legal move
   * whose resulting board keeps the board's minimax value. The engine visits
   * the set of legal moves in the set's iteration order, which is the input
   * order here; because a move replaces the current choice only when it is
   * strictly better for the player to move, the move returned is the first
   * one in that order that reaches the board's value.
   */
  method Minimax(b: Board, order: seq<Action>) returns (r: Option<Action>)
    requires forall a :: a in order <==> a in LegalActions(b)
    ensures r.None? <==> Terminal(b)
    ensures r.Some? ==> r.value in LegalActions(b) && ChildValue(b, r.value) == Value(b)
    ensures r.Some? ==> exists i: nat :: FirstReaching(b, order, i, Value(b)) && order[i] == r.value
  {
    if Terminal(b) {
      return None;
    }
    var p := Player(b);
    var bestValue := Sentinel(p);
    var bestAction: Option<Action> := None;
    ghost var first: nat := 0;
    for k := 0 to |order|
      invariant Choosing(b, order, k, bestValue, bestAction, first)
    {
      var action := order[k];
      assert action in LegalActions(b);
      var newBoard := Result(b, action);
      var moveValue := MinimaxValue(newBoard.board);
      assert moveValue == ChildValue(b, action);
      if p == X {
        if moveValue > bestValue {
          ChoosingImproves(b, order, k, bestValue, bestAction, first);
          bestValue, bestAction, first := moveValue, Some(action), k;
        } else {
          ChoosingKeeps(b, order, k, bestValue, bestAction, first);
        }
      } else {
        if moveValue < bestValue {
          ChoosingImproves(b, order, k, bestValue, bestAction, first);
          bestValue, bestAction, first := moveValue, Some(action), k;
        } else {
          ChoosingKeeps(b, order, k, bestValue, bestAction, first);
        }
      }
    }
    ChoiceIsBest(b, order, bestValue, bestAction, first);
    return bestAction;
  }

  // ---------------------------------------------------------------------------
  // Properties of the rules
  // ---------------------------------------------------------------------------

  /** The empty board: nine legal moves, X to move, nobody has won. */
  lemma InitialStateFacts()
    ensures Player(InitialState()) == X
    ensures EmptyCount(InitialState()) == 9
    ensures |LegalActions(InitialState())| == 9
    ensures Winner(InitialState()).None? && !Terminal(InitialState())
  {
    var b := InitialState();
    var all := {(0, 0), (0, 1), (0, 2), (1, 0), (1, 1), (1, 2), (2, 0), (2, 1), (2, 2)};
    forall a | a in LegalActions(b) ensures a in all {
      AllCellsCover(a);
    }
    assert LegalActions(b) == all;
    assert Empty in b[0];
  }

  /** A full board offers no move. */
  lemma FullBoardHasNoActions(b: Board)
    ensures EmptyCount(b) == 0 <==> LegalActions(b) == {}
  {
    HasEmptyIff(b);
  }

  /**
   * On a balanced board, a legal move keeps the board balanced and passes
   * the turn to the other player.
   */
  lemma TurnFlips(b: Board, a: Action)
    requires Balanced(b) && IsLegal(b, a)
    ensures Balanced(Successor(b, a))
    ensures Player(Successor(b, a)) == Opponent(Player(b))
  {
  }

  /**
   * Playing n legal moves from a board on which k moves were already made
   * yields a board on which k + n moves were made.
   */
  lemma {:induction false} PlayCounts(b: Board, moves: seq<Action>, k: nat)
    requires Count(b, X) == (k + 1) / 2 && Count(b, O) == k / 2 && EmptyCount(b) + k == 9
    requires Play(b, moves).Some?
    ensures Count(Play(b, moves).value, X) == (k + |moves| + 1) / 2
    ensures Count(Play(b, moves).value, O) == (k + |moves|) / 2
    ensures EmptyCount(Play(b, moves).value) + k + |moves| == 9
    decreases |moves|
  {
    if moves != [] {
      var next := Successor(b, moves[0]);
      if k % 2 == 0 {
        assert Player(b) == X;
      } else {
        assert Player(b) == O;
      }
      PlayCounts(next, moves[1..], k + 1);
    }
  }

  /**
   * In any game played from the empty board the players alternate, X first:
   * after n moves X has placed ceil(n/2) marks, O floor(n/2), and X is to
   * move exactly when n is even.
   */
  lemma PlayersAlternate(b: Board, moves: seq<Action>)
    // The start is a parameter pinned here rather than InitialState() written into the
    // clauses below: with the constant board there, Dafny 4.11 derives a contradiction.
    requires b == InitialState()
    requires Play(b, moves).Some?
    ensures Count(Play(b, moves).value, X) == (|moves| + 1) / 2
    ensures Count(Play(b, moves).value, O) == |moves| / 2
    ensures EmptyCount(Play(b, moves).value) == 9 - |moves|
    ensures Player(Play(b, moves).value) == if |moves| % 2 == 0 then X else O
  {
    PlayCounts(b, moves, 0);
  }

  /** A player to move who can complete a line in one move has the best possible value. */
  lemma WinningMoveHasBestValue(b: Board, a: Action)
    requires !Terminal(b) && IsLegal(b, a)
    requires Winner(Successor(b, a)) == Some(Player(b))
    ensures Value(b) == if Player(b) == X then 1 else -1
  {
    ValueIsExtremum(b);
    assert a in LegalActions(b);
  }
}
