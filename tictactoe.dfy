/**
  The board and the rules of tic-tac-toe as `tictactoe/tictactoe.py` plays
  them: whose turn it is, the legal moves in row-major order, the board after a
  move, the winner, whether the game is over and what it is worth to X.

  The source's loops (`actions`, `winner`, `terminal`) are the methods
  `ComputeActions`, `ComputeWinner` and `ComputeTerminal`, each proved equal to
  the function that specifies it; `initial_state`, `player`, `result` and
  `utility` are expressions in the source and functions here.
 */
module TicTacToe {
  import opened Wrappers

  /** The content of one cell: `EMPTY` or the mark of a player. */
  datatype Cell = Empty | X | O

  /** A 3×3 grid of cells, row by row.  Boards are values: deriving a new board never changes another one. */
  type Board = b: seq<seq<Cell>> | |b| == 3 && |b[0]| == 3 && |b[1]| == 3 && |b[2]| == 3
    witness [[Empty, Empty, Empty], [Empty, Empty, Empty], [Empty, Empty, Empty]]

  /** A move `(i, j)`: row `i`, column `j`.  Any pair of integers may be offered to `Result`. */
  type Action = (int, int)

  /** What `result` raises for a move that is not in `actions(board)`. */
  datatype Error = IllegalAction

  predicate InRange(a: Action) {
    0 <= a.0 < 3 && 0 <= a.1 < 3
  }

  /** `a` names a cell of the grid that is still empty. */
  predicate IsLegal(b: Board, a: Action) {
    InRange(a) && b[a.0][a.1] == Empty
  }

  /** No cell is empty. */
  predicate Full(b: Board) {
    forall i, j | 0 <= i < 3 && 0 <= j < 3 :: b[i][j] != Empty
  }

  function InitialState(): (b: Board)
    ensures forall i, j | 0 <= i < 3 && 0 <= j < 3 :: b[i][j] == Empty
  {
    [[Empty, Empty, Empty], [Empty, Empty, Empty], [Empty, Empty, Empty]]
  }

  // ---------------------------------------------------------------------------
  // Counting marks and turns

  /** Python's `row.count(c)`. */
  function CountRow(row: seq<Cell>, c: Cell): (n: nat)
    ensures n <= |row|
  {
    if row == [] then 0 else (if row[0] == c then 1 else 0) + CountRow(row[1..], c)
  }

  /** `sum(row.count(c) for row in board)`. */
  function Count(b: Board, c: Cell): (n: nat)
    ensures n <= 9
  {
    CountRow(b[0], c) + CountRow(b[1], c) + CountRow(b[2], c)
  }

  /** `row.count(c)` is the multiplicity of `c` in the row. */
  lemma {:induction false} CountRowIsMultiplicity(row: seq<Cell>, c: Cell)
    ensures CountRow(row, c) == multiset(row)[c]
  {
    if row != [] {
      CountRowIsMultiplicity(row[1..], c);
      assert row == [row[0]] + row[1..];
    }
  }

  /** The board-wide count is the multiplicity of `c` among the nine cells, read row by row. */
  lemma CountIsMultiplicity(b: Board, c: Cell)
    ensures Count(b, c) == multiset(b[0] + b[1] + b[2])[c]
  {
    CountRowIsMultiplicity(b[0], c);
    CountRowIsMultiplicity(b[1], c);
    CountRowIsMultiplicity(b[2], c);
  }

  /** The number of empty cells: it drops by one with every move, so it bounds the search. */
  function Empties(b: Board): nat {
    Count(b, Empty)
  }

  /** The player to move: X only when O has more marks than X, so O opens the game. */
  function Player(b: Board): (p: Cell)
    ensures p == X || p == O
    ensures p == X <==> Count(b, O) > Count(b, X)
  {
    if Count(b, O) > Count(b, X) then X else O
  }

  /** The mark counts of a board reached by alternating moves from `InitialState()`: O is level with X or one ahead. */
  predicate Balanced(b: Board) {
    Count(b, X) <= Count(b, O) <= Count(b, X) + 1
  }

  lemma {:induction false} CountRowUpdate(row: seq<Cell>, j: nat, v: Cell, c: Cell)
    requires j < |row|
    ensures CountRow(row[j := v], c) + (if row[j] == c then 1 else 0)
         == CountRow(row, c) + (if v == c then 1 else 0)
  {
    if j == 0 {
      assert row[j := v][1..] == row[1..];
    } else {
      assert row[j := v][1..] == row[1..][j - 1 := v];
      CountRowUpdate(row[1..], j - 1, v, c);
    }
  }

  lemma {:induction false} CountRowZero(row: seq<Cell>, c: Cell)
    ensures CountRow(row, c) == 0 <==> forall k | 0 <= k < |row| :: row[k] != c
  {
    if row != [] {
      CountRowZero(row[1..], c);
      assert forall k | 1 <= k < |row| :: row[k] == row[1..][k - 1];
    }
  }

  /** Writing `v` into cell `(i, j)` moves one unit of count from the old content to `v`. */
  lemma CountAfterWrite(b: Board, i: nat, j: nat, v: Cell)
    requires i < 3 && j < 3
    ensures var r: Board := b[i := b[i][j := v]];
      forall c :: Count(r, c) + (if b[i][j] == c then 1 else 0) == Count(b, c) + (if v == c then 1 else 0)
  {
    var r: Board := b[i := b[i][j := v]];
    forall c ensures Count(r, c) + (if b[i][j] == c then 1 else 0) == Count(b, c) + (if v == c then 1 else 0) {
      CountRowUpdate(b[i], j, v, c);
    }
  }

  lemma FullIffNoEmpties(b: Board)
    ensures Full(b) <==> Empties(b) == 0
  {
    CountRowZero(b[0], Empty);
    CountRowZero(b[1], Empty);
    CountRowZero(b[2], Empty);
    if !Full(b) {
      var i, j :| 0 <= i < 3 && 0 <= j < 3 && b[i][j] == Empty;
      assert CountRow(b[i], Empty) != 0;
    }
  }

  // ---------------------------------------------------------------------------
  // Moves

  /**
    The board after the player to move marks the empty cell `a`: the source
    deep-copies the board and writes that one cell.
   */
  function Place(b: Board, a: Action): (r: Board)
    requires IsLegal(b, a)
    ensures r[a.0][a.1] == Player(b)
    ensures forall i, j | 0 <= i < 3 && 0 <= j < 3 && (i, j) != a :: r[i][j] == b[i][j]
    ensures Empties(r) == Empties(b) - 1
    ensures Count(r, Player(b)) == Count(b, Player(b)) + 1
    ensures forall c | c != Empty && c != Player(b) :: Count(r, c) == Count(b, c)
  {
    CountAfterWrite(b, a.0, a.1, Player(b));
    b[a.0 := b[a.0][a.1 := Player(b)]]
  }

  /** `result(board, action)`: the move if it is one of `actions(board)`, the raised exception otherwise. */
  function Result(b: Board, a: Action): (r: Outcome<Board, Error>)
    ensures r.Ok? <==> IsLegal(b, a)
    ensures r.Ok? ==> r.value == Place(b, a)
  {
    ActionsAreEmptyCells(b);
    if a in Actions(b) then Ok(Place(b, a)) else Err(IllegalAction)
  }

  /** Every move keeps the counts balanced and hands the turn to the other player. */
  lemma PlayerAlternates(b: Board, a: Action)
    requires Balanced(b) && IsLegal(b, a)
    ensures Balanced(Place(b, a))
    ensures Player(Place(b, a)) != Player(b)
  {
  }

  lemma InitialStateFacts()
    ensures Balanced(InitialState())
    ensures Player(InitialState()) == O
    ensures Empties(InitialState()) == 9
    ensures Winner(InitialState()) == None
    ensures !Terminal(InitialState())
  {
    var b := InitialState();
    LinesInOrder(b);
    FirstWinnerScan(Lines(b));
    assert forall k | 0 <= k < |Lines(b)| :: Lines(b)[k][0] == Empty;
  }

  // ---------------------------------------------------------------------------
  // Legal actions, in the row-major order of the source's nested loops

  /** The cell with row-major position `n`. */
  function Coord(n: nat): (a: Action)
    requires n < 9
    ensures InRange(a)
  {
    (n / 3, n % 3)
  }

  /** The row-major position of a cell. */
  function Index(a: Action): int {
    3 * a.0 + a.1
  }

  /** The empty cells among the first `n` in row-major order, in that order. */
  function ActionsUpTo(b: Board, n: nat): seq<Action>
    requires n <= 9
  {
    if n == 0 then []
    else
      var a := Coord(n - 1);
      ActionsUpTo(b, n - 1) + (if b[a.0][a.1] == Empty then [a] else [])
  }

  function Actions(b: Board): (acts: seq<Action>)
    ensures forall k | 0 <= k < |acts| :: IsLegal(b, acts[k])
  {
    ActionsUpToFacts(b, 9);
    ActionsUpTo(b, 9)
  }

  lemma {:induction false} ActionsUpToFacts(b: Board, n: nat)
    requires n <= 9
    ensures forall k | 0 <= k < |ActionsUpTo(b, n)| ::
      IsLegal(b, ActionsUpTo(b, n)[k]) && Index(ActionsUpTo(b, n)[k]) < n
    ensures forall k, l | 0 <= k < l < |ActionsUpTo(b, n)| ::
      Index(ActionsUpTo(b, n)[k]) < Index(ActionsUpTo(b, n)[l])
    ensures forall a | IsLegal(b, a) && Index(a) < n :: a in ActionsUpTo(b, n)
  {
    if n > 0 {
      ActionsUpToFacts(b, n - 1);
      var last := Coord(n - 1);
      assert Index(last) == n - 1;
      forall a | IsLegal(b, a) && Index(a) < n
        ensures a in ActionsUpTo(b, n)
      {
        if Index(a) == n - 1 {
          assert a == last;
        }
      }
    }
  }

  /**
    `actions(board)` lists exactly the empty cells, each once, in row-major
    order, and is empty exactly when the board is full.
   */
  lemma ActionsAreEmptyCells(b: Board)
    ensures forall a :: a in Actions(b) <==> IsLegal(b, a)
    ensures forall k, l | 0 <= k < l < |Actions(b)| :: Index(Actions(b)[k]) < Index(Actions(b)[l])
    ensures Actions(b) == [] <==> Full(b)
  {
    ActionsUpToFacts(b, 9);
    forall a ensures a in Actions(b) <==> IsLegal(b, a) {
      if IsLegal(b, a) {
        assert Index(a) < 9;
      }
    }
    if !Full(b) {
      var i, j :| 0 <= i < 3 && 0 <= j < 3 && b[i][j] == Empty;
      assert IsLegal(b, (i, j));
    }
    if Actions(b) != [] {
      assert Actions(b)[0] in Actions(b);
    }
  }

  /** The source's nested loops over rows and columns, appending every empty cell. */
  method ComputeActions(b: Board) returns (ans: seq<Action>)
    ensures ans == Actions(b)
  {
    ans := [];
    for i := 0 to 3
      invariant ans == ActionsUpTo(b, 3 * i)
    {
      for j := 0 to 3
        invariant ans == ActionsUpTo(b, 3 * i + j)
      {
        assert Coord(3 * i + j) == (i, j);
        if b[i][j] == Empty {
          ans := ans + [(i, j)];
        }
      }
    }
  }

  // ---------------------------------------------------------------------------
  // Winner, terminal boards and utility

  function Row(b: Board, i: nat): seq<Cell>
    requires i < 3
  {
    [b[i][0], b[i][1], b[i][2]]
  }

  function Column(b: Board, i: nat): seq<Cell>
    requires i < 3
  {
    [b[0][i], b[1][i], b[2][i]]
  }

  function Diagonal(b: Board): seq<Cell> {
    [b[0][0], b[1][1], b[2][2]]
  }

  function AntiDiagonal(b: Board): seq<Cell> {
    [b[0][2], b[1][1], b[2][0]]
  }

  /** Row 0, column 0, row 1, column 1, ... up to (not including) index `n`. */
  function RowsAndColumns(b: Board, n: nat): seq<seq<Cell>>
    requires n <= 3
  {
    if n == 0 then [] else RowsAndColumns(b, n - 1) + [Row(b, n - 1), Column(b, n - 1)]
  }

  /** The eight lines in the order the source checks them. */
  function Lines(b: Board): seq<seq<Cell>> {
    RowsAndColumns(b, 3) + [Diagonal(b), AntiDiagonal(b)]
  }

  /** Python's `all(x == m for x in line)`. */
  predicate Uniform(line: seq<Cell>, m: Cell) {
    forall k | 0 <= k < |line| :: line[k] == m
  }

  /** Neither X nor O fills this line. */
  predicate Open(line: seq<Cell>) {
    !Uniform(line, X) && !Uniform(line, O)
  }

  /** Scanning `lines` in order, line `k` is the first one filled by X or by O, and the scan reports `m` for it (X is tried first). */
  predicate DecidedAt(lines: seq<seq<Cell>>, k: int, m: Cell) {
    && 0 <= k < |lines|
    && (m == X || m == O)
    && Uniform(lines[k], m)
    && (m == O ==> !Uniform(lines[k], X))
    && forall j | 0 <= j < k :: Open(lines[j])
  }

  function FirstWinner(lines: seq<seq<Cell>>): (w: Option<Cell>)
    ensures w.Some? ==> w.value == X || w.value == O
  {
    if lines == [] then None
    else if Uniform(lines[0], X) then Some(X)
    else if Uniform(lines[0], O) then Some(O)
    else FirstWinner(lines[1..])
  }

  function Winner(b: Board): (w: Option<Cell>)
    ensures w.None? <==> forall k | 0 <= k < |Lines(b)| :: Open(Lines(b)[k])
    ensures w.Some? ==> exists k :: 0 <= k < |Lines(b)| && Uniform(Lines(b)[k], w.value)
  {
    FirstWinnerScan(Lines(b));
    FirstWinner(Lines(b))
  }

  /**
    The scan reports the mark of the first line filled by X or by O (X tried
    before O on each line) and `None` exactly when no line is filled by either.
   */
  lemma {:induction false} FirstWinnerScan(lines: seq<seq<Cell>>)
    ensures FirstWinner(lines) == None <==> forall k | 0 <= k < |lines| :: Open(lines[k])
    ensures forall k, m | DecidedAt(lines, k, m) :: FirstWinner(lines) == Some(m)
    ensures FirstWinner(lines).Some? ==> exists k :: DecidedAt(lines, k, FirstWinner(lines).value)
  {
    if lines != [] {
      FirstWinnerScan(lines[1..]);
      assert forall k | 1 <= k < |lines| :: lines[k] == lines[1..][k - 1];
      if Open(lines[0]) {
        forall k, m | DecidedAt(lines, k, m) ensures FirstWinner(lines) == Some(m) {
          assert k != 0;
          assert DecidedAt(lines[1..], k - 1, m);
        }
        if FirstWinner(lines).Some? {
          var k :| DecidedAt(lines[1..], k, FirstWinner(lines).value);
          assert DecidedAt(lines, k + 1, FirstWinner(lines).value);
        }
      } else {
        assert DecidedAt(lines, 0, FirstWinner(lines).value);
      }
    }
  }

  lemma LinesInOrder(b: Board)
    ensures Lines(b) == [Row(b, 0), Column(b, 0), Row(b, 1), Column(b, 1), Row(b, 2), Column(b, 2),
                         Diagonal(b), AntiDiagonal(b)]
  {
    assert RowsAndColumns(b, 1) == [Row(b, 0), Column(b, 0)];
    assert RowsAndColumns(b, 2) == [Row(b, 0), Column(b, 0), Row(b, 1), Column(b, 1)];
  }

  /** `winner(board)` as the source computes it: collect the eight lines, then scan them. */
  method ComputeWinner(b: Board) returns (w: Option<Cell>)
    ensures w == Winner(b)
  {
    var toCheck: seq<seq<Cell>> := [];
    for i := 0 to 3
      invariant toCheck == RowsAndColumns(b, i)
    {
      toCheck := toCheck + [Row(b, i)];
      toCheck := toCheck + [Column(b, i)];
    }
    toCheck := toCheck + [Diagonal(b)];
    toCheck := toCheck + [AntiDiagonal(b)];
    assert toCheck[0..] == Lines(b);
    for k := 0 to |toCheck|
      invariant FirstWinner(toCheck[k..]) == Winner(b)
    {
      if Uniform(toCheck[k], X) {
        return Some(X);
      }
      if Uniform(toCheck[k], O) {
        return Some(O);
      }
      assert toCheck[k..][1..] == toCheck[k + 1..];
    }
    return None;
  }

  /** The game is over: somebody has a line, or no cell is empty. */
  predicate Terminal(b: Board): (t: bool)
    ensures t <==> Winner(b).Some? || Full(b)
  {
    Winner(b) == Some(X) || Winner(b) == Some(O) || Full(b)
  }

  /** The value of a finished game for X. */
  function Utility(b: Board): (u: int)
    ensures -1 <= u <= 1
    ensures u == 1 <==> Winner(b) == Some(X)
    ensures u == -1 <==> Winner(b) == Some(O)
  {
    if Winner(b) == Some(X) then 1 else if Winner(b) == Some(O) then -1 else 0
  }

  /** `terminal(board)`: ask for the winner, then look for an empty cell row by row. */
  method ComputeTerminal(b: Board) returns (t: bool)
    ensures t == Terminal(b)
  {
    var w := ComputeWinner(b);
    if w == Some(X) {
      return true;
    }
    w := ComputeWinner(b);
    if w == Some(O) {
      return true;
    }
    for i := 0 to 3
      invariant forall i', j' | 0 <= i' < i && 0 <= j' < 3 :: b[i'][j'] != Empty
    {
      for j := 0 to 3
        invariant forall j' | 0 <= j' < j :: b[i][j'] != Empty
      {
        if b[i][j] == Empty {
          return false;
        }
      }
    }
    return true;
  }

  /** A board that is not over still has a move, and every full board is over. */
  lemma NonTerminalHasActions(b: Board)
    ensures !Terminal(b) ==> Actions(b) != []
    ensures Full(b) ==> Terminal(b)
  {
    ActionsAreEmptyCells(b);
  }
}
