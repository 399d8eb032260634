/**
  The search of `tictactoe/tictactoe.py`: `max_value` and `min_value`, two
  mutually recursive loops with a one-sided pruning bound, and `minimax`, which
  picks a move for the player to move.

  The game value they approximate is `MaxGameValue`/`MinGameValue`: plain
  minimax over `Actions` and `Place`, with no pruning.  The methods `MaxValue`
  and `MinValue` are proved against it: exact when the value lies strictly on
  the near side of the bound, and between the bound and the value otherwise.
 */
module TicTacToeSearch {
  import opened Wrappers
  import opened TicTacToe

  /** Every move in `acts` is legal on `b`. */
  predicate AllLegal(b: Board, acts: seq<Action>) {
    forall k | 0 <= k < |acts| :: IsLegal(b, acts[k])
  }

  lemma ActionsAllLegal(b: Board)
    ensures AllLegal(b, Actions(b))
  {
    ActionsAreEmptyCells(b);
  }

  function Max(x: int, y: int): int {
    if x < y then y else x
  }

  function Min(x: int, y: int): int {
    if x < y then x else y
  }

  // ---------------------------------------------------------------------------
  // Running maximum and minimum, as the source's loops keep them

  /** `ans = -1; for v in vals: ans = max(ans, v)`. */
  function RunningMax(vals: seq<int>): int {
    if vals == [] then -1 else Max(RunningMax(vals[..|vals| - 1]), vals[|vals| - 1])
  }

  /** `ans = 1; for v in vals: ans = min(ans, v)`. */
  function RunningMin(vals: seq<int>): int {
    if vals == [] then 1 else Min(RunningMin(vals[..|vals| - 1]), vals[|vals| - 1])
  }

  /** Every value in `vals` lies between -1 and 1, as every game value does. */
  predicate InUnitRange(vals: seq<int>) {
    forall k | 0 <= k < |vals| :: -1 <= vals[k] <= 1
  }

  /**
    Starting from the least utility, the running maximum of values in [-1, 1]
    is their maximum: it bounds every value and, on a non-empty list, is one of them.
   */
  lemma {:induction false} RunningMaxIsMaximum(vals: seq<int>)
    requires InUnitRange(vals)
    ensures -1 <= RunningMax(vals) <= 1
    ensures forall k | 0 <= k < |vals| :: vals[k] <= RunningMax(vals)
    ensures vals != [] ==> exists k :: 0 <= k < |vals| && vals[k] == RunningMax(vals)
  {
    if vals != [] {
      var front := vals[..|vals| - 1];
      assert forall k | 0 <= k < |front| :: front[k] == vals[k];
      RunningMaxIsMaximum(front);
      if front != [] && RunningMax(front) > vals[|vals| - 1] {
        var k :| 0 <= k < |front| && front[k] == RunningMax(front);
        assert vals[k] == RunningMax(vals);
      } else {
        assert vals[|vals| - 1] == RunningMax(vals);
      }
    }
  }

  /** Starting from the greatest utility, the running minimum of values in [-1, 1] is their minimum. */
  lemma {:induction false} RunningMinIsMinimum(vals: seq<int>)
    requires InUnitRange(vals)
    ensures -1 <= RunningMin(vals) <= 1
    ensures forall k | 0 <= k < |vals| :: RunningMin(vals) <= vals[k]
    ensures vals != [] ==> exists k :: 0 <= k < |vals| && vals[k] == RunningMin(vals)
  {
    if vals != [] {
      var front := vals[..|vals| - 1];
      assert forall k | 0 <= k < |front| :: front[k] == vals[k];
      RunningMinIsMinimum(front);
      if front != [] && RunningMin(front) < vals[|vals| - 1] {
        var k :| 0 <= k < |front| && front[k] == RunningMin(front);
        assert vals[k] == RunningMin(vals);
      } else {
        assert vals[|vals| - 1] == RunningMin(vals);
      }
    }
  }

  /** The running maximum over a prefix never exceeds the one over the whole list. */
  lemma {:induction false} RunningMaxPrefix(vals: seq<int>, n: nat)
    requires n <= |vals|
    ensures RunningMax(vals[..n]) <= RunningMax(vals)
    decreases |vals|
  {
    if n < |vals| {
      var front := vals[..|vals| - 1];
      assert front[..n] == vals[..n];
      RunningMaxPrefix(front, n);
    } else {
      assert vals[..n] == vals;
    }
  }

  /** The running minimum over a prefix is never below the one over the whole list. */
  lemma {:induction false} RunningMinPrefix(vals: seq<int>, n: nat)
    requires n <= |vals|
    ensures RunningMin(vals) <= RunningMin(vals[..n])
    decreases |vals|
  {
    if n < |vals| {
      var front := vals[..|vals| - 1];
      assert front[..n] == vals[..n];
      RunningMinPrefix(front, n);
    } else {
      assert vals[..n] == vals;
    }
  }

  // ---------------------------------------------------------------------------
  // Unpruned minimax

  /**
    The value for X of `b` at a maximising level of the search, both sides
    playing perfectly.  As in the source, the side to move is treated as the
    maximiser, whoever it is.
   */
  function MaxGameValue(b: Board): (v: int)
    ensures -1 <= v <= 1
    decreases Empties(b), 1
  {
    if Terminal(b) then Utility(b)
    else
      RunningMaxIsMaximum(MinReplies(b));
      RunningMax(MinReplies(b))
  }

  /**
    The value for X of `b` at a minimising level of the search, both sides
    playing perfectly.  As in the source, the side to move is treated as the
    minimiser, whoever it is.
   */
  function MinGameValue(b: Board): (v: int)
    ensures -1 <= v <= 1
    decreases Empties(b), 1
  {
    if Terminal(b) then Utility(b)
    else
      RunningMinIsMinimum(MaxReplies(b));
      RunningMin(MaxReplies(b))
  }

  /** For each legal move, in order, the value of the board after it at a minimising level. */
  function MinReplies(b: Board): (vals: seq<int>)
    ensures |vals| == |Actions(b)|
    ensures InUnitRange(vals)
    decreases Empties(b), 0
  {
    ActionsAllLegal(b);
    seq(|Actions(b)|, k requires 0 <= k < |Actions(b)| => MinGameValue(Place(b, Actions(b)[k])))
  }

  /** For each legal move, in order, the value of the board after it at a maximising level. */
  function MaxReplies(b: Board): (vals: seq<int>)
    ensures |vals| == |Actions(b)|
    ensures InUnitRange(vals)
    decreases Empties(b), 0
  {
    ActionsAllLegal(b);
    seq(|Actions(b)|, k requires 0 <= k < |Actions(b)| => MaxGameValue(Place(b, Actions(b)[k])))
  }

  /**
    On a board that is not over, the value at a maximising level is the best
    over the mover's moves of the value after the move: no move is worth more
    and some move is worth exactly that.  Dually, at a minimising level it is
    the least.
   */
  lemma GameValuesAreOptimal(b: Board)
    requires !Terminal(b)
    ensures forall k | 0 <= k < |MinReplies(b)| :: MinReplies(b)[k] <= MaxGameValue(b)
    ensures exists k :: 0 <= k < |MinReplies(b)| && MinReplies(b)[k] == MaxGameValue(b)
    ensures forall k | 0 <= k < |MaxReplies(b)| :: MinGameValue(b) <= MaxReplies(b)[k]
    ensures exists k :: 0 <= k < |MaxReplies(b)| && MaxReplies(b)[k] == MinGameValue(b)
  {
    NonTerminalHasActions(b);
    RunningMaxIsMaximum(MinReplies(b));
    RunningMinIsMinimum(MaxReplies(b));
  }

  /** One round of the loop in `max_value`, on values alone: the pruned reply value keeps the running maximum exact. */
  lemma MaxValueStep(vals: seq<int>, k: nat, ans: int, minHere: int)
    requires k < |vals| && ans == RunningMax(vals[..k])
    requires vals[k] > ans ==> minHere == vals[k]
    requires vals[k] <= ans ==> vals[k] <= minHere <= ans
    ensures Max(ans, minHere) == RunningMax(vals[..k + 1])
    ensures minHere <= RunningMax(vals)
  {
    assert vals[..k + 1][..k] == vals[..k];
    RunningMaxPrefix(vals, k + 1);
  }

  /** One round of the loop in `min_value`, on values alone. */
  lemma MinValueStep(vals: seq<int>, k: nat, ans: int, maxHere: int)
    requires k < |vals| && ans == RunningMin(vals[..k])
    requires vals[k] < ans ==> maxHere == vals[k]
    requires ans <= vals[k] ==> ans <= maxHere <= vals[k]
    ensures Min(ans, maxHere) == RunningMin(vals[..k + 1])
    ensures RunningMin(vals) <= maxHere
  {
    assert vals[..k + 1][..k] == vals[..k];
    RunningMinPrefix(vals, k + 1);
  }

  /** The `k`-th legal move is accepted by `Result`, and the reply values are those of the board it yields. */
  lemma ReplyOfResult(b: Board, k: nat)
    requires k < |Actions(b)|
    ensures Result(b, Actions(b)[k]).Ok?
    ensures Empties(Result(b, Actions(b)[k]).value) < Empties(b)
    ensures MinReplies(b)[k] == MinGameValue(Result(b, Actions(b)[k]).value)
    ensures MaxReplies(b)[k] == MaxGameValue(Result(b, Actions(b)[k]).value)
  {
    ActionsAllLegal(b);
  }

  lemma GameValueUnfold(b: Board)
    requires !Terminal(b)
    ensures MaxGameValue(b) == RunningMax(MinReplies(b))
    ensures MinGameValue(b) == RunningMin(MaxReplies(b))
  {
  }

  // ---------------------------------------------------------------------------
  // The pruned search

  /**
    `max_value(board, bound)`.  It returns the exact game value when that value
    is below `bound`; otherwise it may stop early, with a value that is at least
    `bound` and at most the game value.  With the default bound 1 it is exact.
   */
  method MaxValue(b: Board, bound: int) returns (v: int)
    ensures -1 <= v <= 1
    ensures MaxGameValue(b) < bound ==> v == MaxGameValue(b)
    ensures bound <= MaxGameValue(b) ==> bound <= v <= MaxGameValue(b)
    ensures bound == 1 ==> v == MaxGameValue(b)
    decreases Empties(b)
  {
    var t := ComputeTerminal(b);
    if t {
      return Utility(b);
    }
    var acts := ComputeActions(b);
    ghost var vals := MinReplies(b);
    GameValueUnfold(b);
    var ans := -1;
    for k := 0 to |acts|
      invariant ans == RunningMax(vals[..k])
    {
      ReplyOfResult(b, k);
      var child := Result(b, acts[k]).value;
      var minHere := MinValue(child, ans);
      MaxValueStep(vals, k, ans, minHere);
      if minHere >= bound {
        return minHere;
      }
      ans := Max(ans, minHere);
    }
    assert vals[..|acts|] == vals;
    return ans;
  }

  /**
    `min_value(board, bound)`.  It returns the exact game value when that value
    is above `bound`; otherwise it may stop early, with a value that is at most
    `bound` and at least the game value.  With the default bound -1 it is exact.
   */
  method MinValue(b: Board, bound: int) returns (v: int)
    ensures -1 <= v <= 1
    ensures bound < MinGameValue(b) ==> v == MinGameValue(b)
    ensures MinGameValue(b) <= bound ==> MinGameValue(b) <= v <= bound
    ensures bound == -1 ==> v == MinGameValue(b)
    decreases Empties(b)
  {
    var t := ComputeTerminal(b);
    if t {
      return Utility(b);
    }
    var acts := ComputeActions(b);
    ghost var vals := MaxReplies(b);
    GameValueUnfold(b);
    var ans := 1;
    for k := 0 to |acts|
      invariant ans == RunningMin(vals[..k])
    {
      ReplyOfResult(b, k);
      var child := Result(b, acts[k]).value;
      var maxHere := MaxValue(child, ans);
      MinValueStep(vals, k, ans, maxHere);
      if maxHere <= bound {
        return maxHere;
      }
      ans := Min(ans, maxHere);
    }
    assert vals[..|acts|] == vals;
    return ans;
  }

  // ---------------------------------------------------------------------------
  // Choosing a move

  /** `vals[k]` is a maximum of `vals` and no earlier entry reaches it. */
  predicate FirstArgMax(vals: seq<int>, k: int) {
    && 0 <= k < |vals|
    && (forall j | 0 <= j < |vals| :: vals[j] <= vals[k])
    && (forall j | 0 <= j < k :: vals[j] < vals[k])
  }

  /** `vals[k]` is a minimum of `vals` and no earlier entry reaches it. */
  predicate FirstArgMin(vals: seq<int>, k: int) {
    && 0 <= k < |vals|
    && (forall j | 0 <= j < |vals| :: vals[k] <= vals[j])
    && (forall j | 0 <= j < k :: vals[k] < vals[j])
  }

  /** One round of the loop in `minimax` for X: a strictly better value moves the choice, an equal one does not. */
  lemma ArgMaxStep(vals: seq<int>, k: nat, best: int, utility: int)
    requires k < |vals| && InUnitRange(vals)
    requires k == 0 ==> utility == -2
    requires k > 0 ==> FirstArgMax(vals[..k], best) && utility == vals[best]
    ensures vals[k] > utility ==> FirstArgMax(vals[..k + 1], k)
    ensures vals[k] <= utility ==> FirstArgMax(vals[..k + 1], best) && utility == vals[best]
  {
  }

  /** One round of the loop in `minimax` for O. */
  lemma ArgMinStep(vals: seq<int>, k: nat, best: int, utility: int)
    requires k < |vals| && InUnitRange(vals)
    requires k == 0 ==> utility == 2
    requires k > 0 ==> FirstArgMin(vals[..k], best) && utility == vals[best]
    ensures vals[k] < utility ==> FirstArgMin(vals[..k + 1], k)
    ensures utility <= vals[k] ==> FirstArgMin(vals[..k + 1], best) && utility == vals[best]
  {
  }

  /**
    The loop of `minimax` for X: keep the first move whose `min_value` beats
    every earlier one, starting from the unbeatable -2.
   */
  method BestMoveForX(b: Board, acts: seq<Action>) returns (ans: Action)
    requires acts == Actions(b) && acts != []
    ensures exists k :: FirstArgMax(MinReplies(b), k) && acts[k] == ans
  {
    ghost var vals := MinReplies(b);
    ans := (0, 0);
    var utility := -2;
    ghost var best := -1;
    for k := 0 to |acts|
      invariant k == 0 ==> utility == -2
      invariant k > 0 ==> FirstArgMax(vals[..k], best) && utility == vals[best] && ans == acts[best]
    {
      ReplyOfResult(b, k);
      var child := Result(b, acts[k]).value;
      var minHere := MinValue(child, -1);
      ArgMaxStep(vals, k, best, utility);
      if minHere > utility {
        utility := minHere;
        ans := acts[k];
        best := k;
      }
    }
    assert vals[..|acts|] == vals;
  }

  /**
    The loop of `minimax` for O: keep the first move whose `max_value` is below
    every earlier one, starting from the unbeatable 2.
   */
  method BestMoveForO(b: Board, acts: seq<Action>) returns (ans: Action)
    requires acts == Actions(b) && acts != []
    ensures exists k :: FirstArgMin(MaxReplies(b), k) && acts[k] == ans
  {
    ghost var vals := MaxReplies(b);
    ans := (0, 0);
    var utility := 2;
    ghost var best := -1;
    for k := 0 to |acts|
      invariant k == 0 ==> utility == 2
      invariant k > 0 ==> FirstArgMin(vals[..k], best) && utility == vals[best] && ans == acts[best]
    {
      ReplyOfResult(b, k);
      var child := Result(b, acts[k]).value;
      var maxHere := MaxValue(child, 1);
      ArgMinStep(vals, k, best, utility);
      if maxHere < utility {
        utility := maxHere;
        ans := acts[k];
        best := k;
      }
    }
    assert vals[..|acts|] == vals;
  }

  /**
    `minimax(board)`: `None` on a finished game; otherwise a legal move, the
    first in row-major order that is best for the player to move.
   */
  method Minimax(b: Board) returns (r: Option<Action>)
    ensures r == None <==> Terminal(b)
    ensures r.Some? ==> r.value in Actions(b)
    ensures r.Some? && Player(b) == X ==>
      exists k :: FirstArgMax(MinReplies(b), k) && Actions(b)[k] == r.value
    ensures r.Some? && Player(b) == O ==>
      exists k :: FirstArgMin(MaxReplies(b), k) && Actions(b)[k] == r.value
  {
    var t := ComputeTerminal(b);
    if t {
      return None;
    }
    NonTerminalHasActions(b);
    var acts := ComputeActions(b);
    var ans;
    if Player(b) == X {
      ans := BestMoveForX(b, acts);
    } else {
      ans := BestMoveForO(b, acts);
    }
    return Some(ans);
  }
}
