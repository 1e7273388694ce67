/**
 The rules of Tic-Tac-Toe: the board, whose turn it is, the available moves,
 applying a move, the eight lines, the winner, and the end-of-game values.

 A board is an immutable 3x3 grid of cells. The player to move is never
 stored; it is derived from the number of marks of each kind, because X
 always moves first.
 */
module Game {

  datatype Mark = X | O

  /** A cell is empty or holds the mark of one player. */
  datatype Cell = Empty | Marked(mark: Mark)

  datatype Option<T> = None | Some(value: T)

  /** An action names a cell by row and column. Any pair of integers can be
      proposed; only those naming an empty cell of the board are legal. */
  datatype Action = Action(row: int, col: int)

  /** Applying an action either yields the next board or is rejected. */
  datatype MoveResult = Moved(board: Board) | InvalidAction

  /** Three cells in a row, a column or a diagonal, in board order. */
  datatype Line = Line(first: Cell, middle: Cell, last: Cell)

  ghost predicate IsGrid(b: seq<seq<Cell>>) {
    |b| == 3 && forall i :: 0 <= i < 3 ==> |b[i]| == 3
  }

  /** b[i][j] is the cell in row i, column j. */
  type Board = b: seq<seq<Cell>> | IsGrid(b)
    witness [[Empty, Empty, Empty], [Empty, Empty, Empty], [Empty, Empty, Empty]]

  predicate InRange(a: Action) {
    0 <= a.row < 3 && 0 <= a.col < 3
  }

  function At(b: Board, a: Action): Cell
    requires InRange(a)
  {
    b[a.row][a.col]
  }

  /** Position of a cell in row-major order, 0 .. 8. */
  function Index(a: Action): (k: nat)
    requires InRange(a)
    ensures k < 9 && k / 3 == a.row && k % 3 == a.col
  {
    3 * a.row + a.col
  }

  /** The cell at row-major position k; the inverse of Index. */
  function Pos(k: nat): (a: Action)
    requires k < 9
    ensures InRange(a) && Index(a) == k
  {
    Action(k / 3, k % 3)
  }

  // ---------------------------------------------------------------------------
  // Counting marks

  /** The number of cells among the first k in row-major order that hold c. */
  function CountUpTo(b: Board, c: Cell, k: nat): (n: nat)
    requires k <= 9
    ensures n <= k
  {
    if k == 0 then 0
    else CountUpTo(b, c, k - 1) + (if At(b, Pos(k - 1)) == c then 1 else 0)
  }

  /** The number of cells of the whole board that hold c. */
  function Count(b: Board, c: Cell): nat {
    CountUpTo(b, c, 9)
  }

  /** Every cell is empty, an X or an O, so the three counts add up. */
  lemma {:induction false} CountsPartitionUpTo(b: Board, k: nat)
    requires k <= 9
    ensures CountUpTo(b, Empty, k) + CountUpTo(b, Marked(X), k) + CountUpTo(b, Marked(O), k) == k
  {
    if k > 0 {
      CountsPartitionUpTo(b, k - 1);
      match At(b, Pos(k - 1))
      case Empty =>
      case Marked(X) =>
      case Marked(O) =>
    }
  }

  lemma CountsPartition(b: Board)
    ensures Count(b, Empty) + Count(b, Marked(X)) + Count(b, Marked(O)) == 9
  {
    CountsPartitionUpTo(b, 9);
  }

  // ---------------------------------------------------------------------------
  // The initial board and the player to move

  function InitialState(): (b: Board)
    ensures forall a :: InRange(a) ==> At(b, a) == Empty
  {
    seq(3, _ => seq(3, _ => Empty))
  }

  /** O moves exactly when X has placed more marks than O; otherwise X moves,
      including on boards where O leads, which play never produces. */
  function Player(b: Board): Mark {
    if Count(b, Marked(X)) > Count(b, Marked(O)) then O else X
  }

  /** The mark counts of a board reached by alternating moves from the empty
      board, X first. */
  predicate Balanced(b: Board) {
    Count(b, Marked(X)) == Count(b, Marked(O)) || Count(b, Marked(X)) == Count(b, Marked(O)) + 1
  }

  // ---------------------------------------------------------------------------
  // Available actions

  /** The empty cells among the first k, in row-major order, as the nested
      row/column loop visits them. */
  function EmptyCellsUpTo(b: Board, k: nat): (s: seq<Action>)
    requires k <= 9
    ensures |s| == CountUpTo(b, Empty, k)
    ensures forall a :: a in s <==> InRange(a) && Index(a) < k && At(b, a) == Empty
    ensures forall i, j :: 0 <= i < j < |s| ==> Index(s[i]) < Index(s[j])
  {
    if k == 0 then []
    else
      var prefix := EmptyCellsUpTo(b, k - 1);
      if At(b, Pos(k - 1)) == Empty then prefix + [Pos(k - 1)] else prefix
  }

  function EmptyCells(b: Board): (s: seq<Action>)
    ensures forall i, j :: 0 <= i < j < |s| ==> s[i] != s[j]
  {
    EmptyCellsUpTo(b, 9)
  }

  /** A sequence without repetitions has as many distinct elements as entries. */
  lemma {:induction false} DistinctCardinality<T>(s: seq<T>)
    requires forall i, j :: 0 <= i < j < |s| ==> s[i] != s[j]
    ensures |set x | x in s| == |s|
  {
    if s != [] {
      var rest := s[1..];
      DistinctCardinality(rest);
      assert (set x | x in s) == (set x | x in rest) + {s[0]};
      assert s[0] !in rest;
    }
  }

  /** The legal actions: exactly the in-range coordinates of empty cells. */
  function Actions(b: Board): (s: set<Action>)
    ensures forall a :: a in s <==> InRange(a) && At(b, a) == Empty
    ensures |s| == Count(b, Empty)
  {
    var cells := EmptyCells(b);
    DistinctCardinality(cells);
    set a | a in cells
  }

  /** Available actions and placed marks together cover the nine cells. */
  lemma ActionsAndMarksFillBoard(b: Board)
    ensures |Actions(b)| + Count(b, Marked(X)) + Count(b, Marked(O)) == 9
  {
    CountsPartition(b);
  }

  // ---------------------------------------------------------------------------
  // Applying an action

  /** The board with mark m written at a; every other cell is kept. */
  function Place(b: Board, a: Action, m: Mark): (r: Board)
    requires InRange(a)
    ensures At(r, a) == Marked(m)
    ensures forall c :: InRange(c) && c != a ==> At(r, c) == At(b, c)
  {
    b[a.row := b[a.row][a.col := Marked(m)]]
  }

  /** Placing a mark on an empty cell moves one cell from the empty count to
      the count of that mark, among the cells before position k. */
  lemma {:induction false} PlaceCountsUpTo(b: Board, a: Action, m: Mark, c: Cell, k: nat)
    requires InRange(a) && At(b, a) == Empty && k <= 9
    ensures CountUpTo(Place(b, a, m), c, k) ==
      CountUpTo(b, c, k)
      + (if Index(a) < k && c == Marked(m) then 1 else 0)
      - (if Index(a) < k && c == Empty then 1 else 0)
  {
    if k > 0 {
      PlaceCountsUpTo(b, a, m, c, k - 1);
    }
  }

  /** Models `result`: a legal action yields a new board holding the mover's
      mark at the target cell and unchanged elsewhere; an occupied or
      out-of-range cell is rejected. */
  function Result(b: Board, a: Action): (r: MoveResult)
    ensures r.Moved? <==> InRange(a) && At(b, a) == Empty
    ensures r.Moved? ==> At(r.board, a) == Marked(Player(b))
    ensures r.Moved? ==> forall c :: InRange(c) && c != a ==> At(r.board, c) == At(b, c)
    ensures r.Moved? ==> Actions(r.board) == Actions(b) - {a}
    ensures r.Moved? ==> |Actions(r.board)| == |Actions(b)| - 1
  {
    if a in Actions(b) then
      var next := Place(b, a, Player(b));
      assert Actions(next) == Actions(b) - {a};
      Moved(next)
    else
      InvalidAction
  }

  /** A move adds one mark of the player to move and leaves the other count. */
  lemma ResultCounts(b: Board, a: Action)
    requires Result(b, a).Moved?
    ensures Count(Result(b, a).board, Marked(Player(b))) == Count(b, Marked(Player(b))) + 1
    ensures Count(Result(b, a).board, Marked(Other(Player(b)))) == Count(b, Marked(Other(Player(b))))
  {
    PlaceCountsUpTo(b, a, Player(b), Marked(Player(b)), 9);
    PlaceCountsUpTo(b, a, Player(b), Marked(Other(Player(b))), 9);
  }

  function Other(m: Mark): (n: Mark)
    ensures n != m
  {
    if m == X then O else X
  }

  /** Alternating play keeps the mark counts balanced and hands the turn to
      the other player. */
  lemma {:induction false} ResultAlternates(b: Board, a: Action)
    requires Balanced(b) && Result(b, a).Moved?
    ensures Balanced(Result(b, a).board)
    ensures Player(Result(b, a).board) == Other(Player(b))
  {
    ResultCounts(b, a);
  }

  /** On a balanced board X moves exactly when the counts are equal. */
  lemma PlayerOfBalanced(b: Board)
    requires Balanced(b)
    ensures Player(b) == X <==> Count(b, Marked(X)) == Count(b, Marked(O))
  {
  }

  /** The empty board offers all nine cells. */
  lemma InitialActions(b: Board)
    requires b == InitialState()
    ensures |Actions(b)| == 9
  {
    EmptyBoardActions(b);
  }

  /** X moves first, on a board without marks. */
  lemma InitialPlayer(b: Board)
    requires b == InitialState()
    ensures Count(b, Marked(X)) == 0 && Count(b, Marked(O)) == 0
    ensures Player(b) == X
  {
    EmptyBoardFacts(b);
  }

  /** The empty board satisfies the alternation invariant. */
  lemma InitialBalanced(b: Board)
    requires b == InitialState()
    ensures Balanced(b)
  {
    EmptyBoardFacts(b);
  }

  lemma EmptyBoardActions(b: Board)
    requires forall a :: InRange(a) ==> At(b, a) == Empty
    ensures |Actions(b)| == 9
  {
    EmptyBoardHasNoMarks(b, 9);
    CountsPartition(b);
  }

  lemma EmptyBoardFacts(b: Board)
    requires forall a :: InRange(a) ==> At(b, a) == Empty
    ensures Count(b, Marked(X)) == 0 && Count(b, Marked(O)) == 0
    ensures Balanced(b) && Player(b) == X
  {
    EmptyBoardHasNoMarks(b, 9);
  }

  lemma {:induction false} EmptyBoardHasNoMarks(b: Board, k: nat)
    requires k <= 9
    requires forall a :: InRange(a) ==> At(b, a) == Empty
    ensures CountUpTo(b, Marked(X), k) == 0 && CountUpTo(b, Marked(O), k) == 0
  {
    if k > 0 {
      EmptyBoardHasNoMarks(b, k - 1);
    }
  }

  // ---------------------------------------------------------------------------
  // Lines and the winner

  /** The three rows, three columns and two diagonals, in the order the program
      lists them. */
  function Lines(b: Board): (ls: seq<Line>)
    ensures |ls| == 8
  {
    [ Line(b[0][0], b[0][1], b[0][2]),
      Line(b[1][0], b[1][1], b[1][2]),
      Line(b[2][0], b[2][1], b[2][2]),
      Line(b[0][0], b[1][0], b[2][0]),
      Line(b[0][1], b[1][1], b[2][1]),
      Line(b[0][2], b[1][2], b[2][2]),
      Line(b[0][0], b[1][1], b[2][2]),
      Line(b[2][0], b[1][1], b[0][2]) ]
  }

  /** The lines as a set: equal lines collapse into one element. */
  function BoardLines(b: Board): set<Line> {
    set l | l in Lines(b)
  }

  /** All nine cells hold the same value. */
  ghost predicate AllSame(b: Board) {
    forall a :: InRange(a) ==> At(b, a) == b[0][0]
  }

  lemma SingletonMembers<T>(s: set<T>, x: T, y: T)
    requires |s| == 1 && x in s && y in s
    ensures x == y
  {
    var rest := s - {x};
    assert |rest| == 0;
  }

  /** The eight lines collapse to a single distinct line exactly when all
      nine cells are equal: the empty board, but also a board filled with one
      mark. */
  lemma LinesCollapse(b: Board)
    ensures |BoardLines(b)| == 1 <==> AllSame(b)
  {
    var ls := Lines(b);
    if AllSame(b) {
      forall i, j | 0 <= i < 3 && 0 <= j < 3
        ensures b[i][j] == b[0][0]
      {
        assert At(b, Action(i, j)) == b[0][0];
      }
      assert BoardLines(b) == {ls[0]};
    }
    if |BoardLines(b)| == 1 {
      forall k | 0 <= k < 8
        ensures ls[k] == ls[0]
      {
        SingletonMembers(BoardLines(b), ls[k], ls[0]);
      }
      // rows agree with row 0, and columns 1 and 2 agree with column 0
      assert ls[1] == ls[0] && ls[2] == ls[0];
      assert ls[4] == ls[3] && ls[5] == ls[3];
      assert b[0][1] == b[0][0] && b[0][2] == b[0][0];
      forall a | InRange(a)
        ensures At(b, a) == b[0][0]
      {
        assert b[a.row][a.col] == b[0][a.col];
      }
    }
  }

  /** A line wins when it holds no empty cell and only one distinct value. */
  predicate IsWinningLine(l: Line) {
    Empty !in [l.first, l.middle, l.last] && |{l.first, l.middle, l.last}| == 1
  }

  /** All three cells of l hold m. */
  predicate Completes(l: Line, m: Mark) {
    l.first == Marked(m) && l.middle == Marked(m) && l.last == Marked(m)
  }

  lemma WinningLineCompletes(l: Line)
    ensures IsWinningLine(l) <==> l.first.Marked? && Completes(l, l.first.mark)
  {
    var s := {l.first, l.middle, l.last};
    if IsWinningLine(l) {
      SingletonMembers(s, l.first, l.middle);
      SingletonMembers(s, l.first, l.last);
    }
    if l.first.Marked? && Completes(l, l.first.mark) {
      assert s == {l.first};
    }
  }

  /** Some line of b is complete in m. */
  predicate HasLine(b: Board, m: Mark) {
    exists l :: l in Lines(b) && Completes(l, m)
  }

  /** The mark of the first winning line of ls, scanning in order. */
  function FirstWinningLine(ls: seq<Line>): (w: Option<Mark>)
    ensures w.Some? ==> exists l :: l in ls && Completes(l, w.value)
    ensures w.None? <==> forall l :: l in ls ==> !Completes(l, X) && !Completes(l, O)
  {
    if ls == [] then None
    else
      WinningLineCompletes(ls[0]);
      if IsWinningLine(ls[0]) then
        assert ls[0] in ls;
        assert ls[0].first.mark == X || ls[0].first.mark == O;
        Some(ls[0].first.mark)
      else FirstWinningLine(ls[1..])
  }

  /** Models `winner`. A board whose lines collapse to one distinct line has
      no winner; otherwise the winner is the mark of a complete line, if any.
      Lines are scanned in the program's listing order: only when both marks
      have a complete line does the order matter. */
  function Winner(b: Board): (w: Option<Mark>)
    ensures AllSame(b) ==> w == None
    ensures !AllSame(b) ==> (w.None? <==> !HasLine(b, X) && !HasLine(b, O))
    ensures w.Some? ==> HasLine(b, w.value)
  {
    LinesCollapse(b);
    if |BoardLines(b)| == 1 then None else FirstWinningLine(Lines(b))
  }

  /** Scanning the lines in any order gives the same winner, unless both marks
      have a complete line. */
  lemma WinnerIgnoresLineOrder(b: Board, order: seq<Line>)
    requires forall l :: l in order <==> l in BoardLines(b)
    requires !(HasLine(b, X) && HasLine(b, O))
    ensures (if |BoardLines(b)| == 1 then None else FirstWinningLine(order)) == Winner(b)
  {
    if |BoardLines(b)| != 1 {
      SameLinesSameWinner(order, Lines(b));
    }
  }

  /** Two scans over the same lines agree when at most one mark completes a line. */
  lemma SameLinesSameWinner(p: seq<Line>, q: seq<Line>)
    requires forall l :: l in p <==> l in q
    requires !((exists l :: l in q && Completes(l, X)) && (exists l :: l in q && Completes(l, O)))
    ensures FirstWinningLine(p) == FirstWinningLine(q)
  {
    var v, w := FirstWinningLine(p), FirstWinningLine(q);
    if v.Some? {
      var l :| l in p && Completes(l, v.value);
      assert l in q;
      assert w.Some?;
      var l' :| l' in q && Completes(l', w.value);
      assert v.value == w.value by {
        match v.value
        case X =>
        case O =>
      }
    }
  }

  /** A board of nine equal cells reached by play is the empty board: the
      collapse rule only ever fires, in play, where it is meant to. */
  lemma AllSameBalancedIsInitial(b: Board)
    requires Balanced(b) && AllSame(b)
    ensures b == InitialState()
  {
    CountsPartition(b);
    match b[0][0]
    case Marked(X) =>
      UniformCounts(b, X, 9);
      assert false;
    case Marked(O) =>
      UniformCounts(b, O, 9);
      assert false;
    case Empty =>
      var e := InitialState();
      forall i | 0 <= i < 3
        ensures b[i] == e[i]
      {
        forall j | 0 <= j < 3
          ensures b[i][j] == e[i][j]
        {
          assert At(b, Action(i, j)) == Empty == At(e, Action(i, j));
        }
      }
  }

  lemma {:induction false} UniformCounts(b: Board, m: Mark, k: nat)
    requires k <= 9
    requires forall a :: InRange(a) ==> At(b, a) == Marked(m)
    ensures CountUpTo(b, Marked(m), k) == k
  {
    if k > 0 {
      UniformCounts(b, m, k - 1);
    }
  }

  // ---------------------------------------------------------------------------
  // End of game

  /** No cell is empty. */
  ghost predicate Full(b: Board) {
    forall a :: InRange(a) ==> At(b, a) != Empty
  }

  /** The game is over when someone has won or no move is left. */
  function Terminal(b: Board): (t: bool)
    ensures t <==> Winner(b).Some? || Full(b)
  {
    if Winner(b) == None then |Actions(b)| == 0 else true
  }

  /** The outcome from X's point of view. */
  function Utility(b: Board): (u: int)
    ensures u == -1 || u == 0 || u == 1
    ensures u == 1 <==> Winner(b) == Some(X)
    ensures u == -1 <==> Winner(b) == Some(O)
  {
    match Winner(b)
    case None => 0
    case Some(X) => 1
    case Some(O) => -1
  }

  // ---------------------------------------------------------------------------
  // Lines in play

  /** If every m-cell of r is an m-cell of b, every line r completes in m
      b completes too. */
  lemma LinesOfSubboard(r: Board, b: Board, m: Mark)
    requires forall i, j :: 0 <= i < 3 && 0 <= j < 3 && r[i][j] == Marked(m) ==> b[i][j] == Marked(m)
    ensures HasLine(r, m) ==> HasLine(b, m)
  {
    if HasLine(r, m) {
      var l :| l in Lines(r) && Completes(l, m);
      var k :| 0 <= k < 8 && Lines(r)[k] == l;
      assert Completes(Lines(b)[k], m);
      assert Lines(b)[k] in Lines(b);
    }
  }

  /** Only the target cell changes, so a move cannot complete a line of the
      mark that did not move. */
  lemma MoveCompletesOnlyMoverLines(b: Board, a: Action, m: Mark)
    requires Result(b, a).Moved? && m != Player(b)
    ensures HasLine(Result(b, a).board, m) ==> HasLine(b, m)
  {
    var r := Result(b, a).board;
    forall i, j | 0 <= i < 3 && 0 <= j < 3 && r[i][j] == Marked(m)
      ensures b[i][j] == Marked(m)
    {
      assert At(r, Action(i, j)) == Marked(m) != At(r, a);
    }
    LinesOfSubboard(r, b, m);
  }

  /** An unfinished board has no complete line. */
  lemma UnfinishedHasNoLine(b: Board)
    requires !Terminal(b)
    ensures !HasLine(b, X) && !HasLine(b, O)
  {
    if AllSame(b) {
      if b[0][0] != Empty {
        assert false;
      }
      forall i, j | 0 <= i < 3 && 0 <= j < 3
        ensures b[i][j] == Empty
      {
        assert At(b, Action(i, j)) == b[0][0];
      }
    }
  }

  /** A move made on an unfinished board leaves at most one mark with a
      complete line, so the order in which the winner scans the lines never
      matters in play. */
  lemma NoDoubleLineAfterMove(b: Board, a: Action)
    requires !Terminal(b) && Result(b, a).Moved?
    ensures !(HasLine(Result(b, a).board, X) && HasLine(Result(b, a).board, O))
  {
    UnfinishedHasNoLine(b);
    MoveCompletesOnlyMoverLines(b, a, Other(Player(b)));
    match Player(b)
    case X =>
    case O =>
  }
}
