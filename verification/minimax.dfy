/** The computer agent of computer_agent.c: the recursive search optimal_move
    over duplicated boards and the retry loop of computer_agent_play. The search
    is not true minimax: non-top nodes add up their children's scores, the
    terminal score depends on the parity of a counter bumped once per legal
    sibling, and only a win by the searching colour is terminal. */
module Minimax {
  import opened Pieces
  import opened Grid
  import opened WinScan

  /** C's `%` on int, which truncates toward zero: a negative odd dividend leaves -1. */
  function CRem(a: int, n: int): (r: int)
    requires n > 0
    ensures -n < r < n
    ensures 0 <= a ==> 0 <= r
    ensures a <= 0 ==> r <= 0
    ensures a == n * CDiv(a, n) + r
  {
    if a >= 0 then a % n
    else
      assert -a == n * ((-a) / n) + (-a) % n;
      -((-a) % n)
  }

  /** C's `/` on int, which truncates toward zero. */
  function CDiv(a: int, n: int): int
    requires n > 0
  {
    if a >= 0 then a / n else -((-a) / n)
  }

  /** The base cases of optimal_move: a win by `player` when the counter's C
      remainder is 0 or 1, or a tie. A win by any other colour is not one. */
  predicate Terminal(b: Board, player: Cell, counter: int): (t: bool)
    requires b.Valid()
    ensures t <==> HasWinner(b) == Tie || (HasWinner(b) == Win(player) && (0 <= counter || counter % 2 == 0))
  {
    var verdict := HasWinner(b);
    CRemOfTwo(counter);
    (Code(verdict) == 1 && verdict.colour == player && (CRem(counter, 2) == 0 || CRem(counter, 2) == 1))
    || Code(verdict) == -1
  }

  /** The C remainder of a counter by 2 is 0 or 1 unless the counter is negative and odd. */
  lemma CRemOfTwo(a: int)
    ensures CRem(a, 2) == 0 || CRem(a, 2) == 1 <==> 0 <= a || a % 2 == 0
  {
  }

  /** optimal_move(b, player, counter, first). A node that is not terminal
      searches every child (see ChildScores) and runs its column loop over them. */
  function OptimalMove(b: Board, player: Cell, counter: int, first: bool): (score: int)
    requires b.Valid()
    decreases EmptyCount(b), if first then 1 else 0, 1
    ensures HasWinner(b) == Win(player) && 0 <= counter && counter % 2 == 0 ==> score == 100
    ensures HasWinner(b) == Win(player) && 0 <= counter && counter % 2 == 1 ==> score == -100
    ensures HasWinner(b) == Tie ==> score == 0
    ensures !first ==> score % 100 == 0
  {
    var verdict := HasWinner(b);
    if verdict == Win(player) && CRem(counter, 2) == 0 then 100
    else if verdict == Win(player) && CRem(counter, 2) == 1 then -100
    else if verdict == Tie then 0
    else
      NotTieHasRows(b);
      var scores := ChildScores(b, player, counter, first);
      FoldKeepsHundreds(LegalColumns(b), scores, first, 0, 0, None, -1);
      ColumnLoop(LegalColumns(b), scores, first, 0, 0, None, -1)
  }

  /** The columns from `col` on that pass CanPlayMove, in increasing order. */
  function LegalFrom(b: Board, col: nat): (cols: seq<nat>)
    requires b.Valid()
    decreases b.width - col
    ensures forall k :: 0 <= k < |cols| ==> col <= cols[k] < b.width && CanPlayMove(b, cols[k])
    ensures forall c :: col <= c < b.width && CanPlayMove(b, c) ==> c in cols
    ensures forall k, k' :: 0 <= k < k' < |cols| ==> cols[k] < cols[k']
  {
    if col >= b.width then []
    else if CanPlayMove(b, col) then [col] + LegalFrom(b, col + 1)
    else LegalFrom(b, col + 1)
  }

  /** The columns the `for col` loop of optimal_move enters, in loop order. */
  function LegalColumns(b: Board): seq<nat>
    requires b.Valid()
  {
    LegalFrom(b, 0)
  }

  /** One child of a search node: the column played, the colour dropped there,
      the counter handed down and the board after the drop. */
  datatype Child = Child(column: nat, colour: Cell, counter: int, board: Board)

  /** The children a node explores, in column order. The k-th legal column
      (counting from 0) is played on a duplicate, with `player` at the top level
      and with the opponent below (the two board_play calls of the loop), and
      hands down counter + k + 1, the by-value counter after its k+1 bumps. */
  function Children(b: Board, player: Cell, counter: int, first: bool): (kids: seq<Child>)
    requires b.Valid()
    ensures |kids| == |LegalColumns(b)|
    ensures forall k :: 0 <= k < |kids| ==>
              && kids[k].column == LegalColumns(b)[k]
              && kids[k].colour == (if first then player else Opponent(player))
              && kids[k].counter == counter + k + 1
              && kids[k].board.Valid()
    ensures b.height >= 1 ==> forall k :: 0 <= k < |kids| ==>
              && Play(b, kids[k].column, kids[k].colour) == Change(true, kids[k].board)
              && (kids[k].colour != Empty ==> EmptyCount(kids[k].board) + 1 == EmptyCount(b))
              && (kids[k].colour == Empty ==> kids[k].board == b)
  {
    var cols := LegalColumns(b);
    var mover := if first then player else Opponent(player);
    seq(|cols|, k requires 0 <= k < |cols| =>
      Child(cols[k], mover, counter + k + 1, Play(Duplicate(b), cols[k], mover).board))
  }

  /** The score of every child, each searched one level down as a non-top node.
      Only a top-level drop of Empty leaves the board as it was. */
  function ChildScores(b: Board, player: Cell, counter: int, first: bool): (scores: seq<int>)
    requires b.Valid() && b.height >= 1
    decreases EmptyCount(b), if first then 1 else 0, 0
    ensures |scores| == |LegalColumns(b)|
    ensures forall k :: 0 <= k < |scores| ==> scores[k] % 100 == 0
  {
    var kids := Children(b, player, counter, first);
    seq(|kids|, k requires 0 <= k < |kids| =>
      OptimalMove(kids[k].board, kids[k].colour, kids[k].counter, false))
  }

  /** The accumulator part of optimal_move's `for col` loop, run over the legal
      columns `cols` and their child scores from position k on: `result` adds up
      the scores; at the top level `best` is max_result (None standing for
      -INFINITY) and `move` the column of the last strict improvement. */
  function ColumnLoop(cols: seq<nat>, scores: seq<int>, first: bool, k: nat,
                      result: int, best: Option<int>, move: int): (r: int)
    requires |scores| == |cols| && k <= |cols|
    decreases |cols| - k
    ensures first ==> r == move || exists j :: k <= j < |cols| && r == cols[j]
  {
    if k == |cols| then (if first then move else result)
    else
      var result' := result + scores[k];
      if first && (best.None? || result' > best.value) then
        ColumnLoop(cols, scores, first, k + 1, result', Some(result'), cols[k])
      else
        ColumnLoop(cols, scores, first, k + 1, result', best, move)
  }

  /** Below the top level, adding multiples of 100 to a multiple of 100 keeps one. */
  lemma {:induction false} FoldKeepsHundreds(cols: seq<nat>, scores: seq<int>, first: bool, k: nat,
                                             result: int, best: Option<int>, move: int)
    requires |scores| == |cols| && k <= |cols|
    requires forall j :: 0 <= j < |scores| ==> scores[j] % 100 == 0
    ensures !first && result % 100 == 0 ==> ColumnLoop(cols, scores, first, k, result, best, move) % 100 == 0
    decreases |cols| - k
  {
    if k < |cols| {
      HundredsAdd(result, scores[k]);
      var result' := result + scores[k];
      if first && (best.None? || result' > best.value) {
        FoldKeepsHundreds(cols, scores, first, k + 1, result', Some(result'), cols[k]);
      } else {
        FoldKeepsHundreds(cols, scores, first, k + 1, result', best, move);
      }
    }
  }

  lemma HundredsAdd(a: int, b: int)
    ensures a % 100 == 0 && b % 100 == 0 ==> (a + b) % 100 == 0
  {
    if a % 100 == 0 && b % 100 == 0 {
      assert a + b == 100 * (a / 100 + b / 100);
    }
  }

  function Sum(s: seq<int>): int
  {
    if |s| == 0 then 0 else Sum(s[..|s| - 1]) + s[|s| - 1]
  }

  /** s[0] + ... + s[i]. */
  function PrefixSum(s: seq<int>, i: int): int
    requires 0 <= i < |s|
  {
    Sum(s[..i + 1])
  }

  /** Among the first m prefix sums, the one at i is strictly above every
      earlier one and not below any later one: i is the last index whose prefix
      sum set a new strict record. */
  ghost predicate IsFirstBest(s: seq<int>, i: int, m: int)
  {
    && 0 <= i < m <= |s|
    && (forall j :: 0 <= j < i ==> PrefixSum(s, j) < PrefixSum(s, i))
    && (forall j :: i < j < m ==> PrefixSum(s, j) <= PrefixSum(s, i))
  }

  lemma SumStep(s: seq<int>, m: nat)
    requires m < |s|
    ensures Sum(s[..m + 1]) == Sum(s[..m]) + s[m]
  {
    assert s[..m + 1][..m] == s[..m];
  }

  /** A prefix sum that beats the record (or is the first) becomes the record. */
  lemma NewBest(s: seq<int>, i: int, m: nat)
    requires m < |s|
    requires m == 0 || (IsFirstBest(s, i, m) && PrefixSum(s, m) > PrefixSum(s, i))
    ensures IsFirstBest(s, m, m + 1)
  {
    if m > 0 {
      forall j | 0 <= j < m
        ensures PrefixSum(s, j) < PrefixSum(s, m)
      {
        if j > i { assert PrefixSum(s, j) <= PrefixSum(s, i); }
      }
    }
  }

  /** The loop invariant of optimal_move's column loop: after the first k legal
      columns, result is the sum of their scores, and at the top level best/move
      record the first best prefix sum. From there the loop returns the sum of
      all scores below the top level; at the top level -1 when no column is
      legal, and otherwise the column of the first best prefix sum. */
  lemma {:induction false} ColumnLoopSpec(cols: seq<nat>, scores: seq<int>, first: bool, k: nat,
                                          result: int, best: Option<int>, move: int, i: int)
    requires |scores| == |cols| && k <= |cols|
    requires result == Sum(scores[..k])
    requires first ==> (best.None? <==> k == 0) && (k == 0 ==> move == -1)
    requires first && 0 < k ==>
               IsFirstBest(scores, i, k) && best.value == PrefixSum(scores, i) && move == cols[i]
    ensures var r := ColumnLoop(cols, scores, first, k, result, best, move);
            && (!first ==> r == Sum(scores))
            && (first && |cols| == 0 ==> r == -1)
            && (first && 0 < |cols| ==> exists i' :: IsFirstBest(scores, i', |cols|) && r == cols[i'])
    decreases |cols| - k
  {
    if k == |cols| {
      assert scores[..k] == scores;
      if first && 0 < k {
        assert IsFirstBest(scores, i, |cols|);
      }
    } else {
      SumStep(scores, k);
      var result' := result + scores[k];
      if first && (best.None? || result' > best.value) {
        NewBest(scores, i, k);
        ColumnLoopSpec(cols, scores, first, k + 1, result', Some(result'), cols[k], k);
      } else {
        ColumnLoopSpec(cols, scores, first, k + 1, result', best, move, i);
      }
    }
  }

  /** A node that is not terminal runs its column loop over its children's scores. */
  lemma NotTerminalRunsLoop(b: Board, player: Cell, counter: int, first: bool)
    requires b.Valid() && !Terminal(b, player, counter)
    ensures b.height >= 1
    ensures OptimalMove(b, player, counter, first)
            == ColumnLoop(LegalColumns(b), ChildScores(b, player, counter, first), first, 0, 0, None, -1)
  {
    NotTieHasRows(b);
    CRemOfTwo(counter);
  }

  /** Below the top level a node that is not terminal scores the sum of its
      children's scores, 0 when no column is legal. */
  lemma NonTopScoreIsChildSum(b: Board, player: Cell, counter: int)
    requires b.Valid() && !Terminal(b, player, counter)
    ensures OptimalMove(b, player, counter, false) == Sum(ChildScores(b, player, counter, false))
  {
    NotTerminalRunsLoop(b, player, counter, false);
    ColumnLoopSpec(LegalColumns(b), ChildScores(b, player, counter, false), false, 0, 0, None, -1, 0);
  }

  /** A board won by a colour other than `player` is not terminal for `player`:
      it is searched further and scores the sum of its children. */
  lemma OtherColourWinIsSearched(b: Board, player: Cell, winner: Cell, counter: int)
    requires b.Valid() && HasWinner(b) == Win(winner) && winner != player
    ensures !Terminal(b, player, counter)
    ensures OptimalMove(b, player, counter, false) == Sum(ChildScores(b, player, counter, false))
  {
    NonTopScoreIsChildSum(b, player, counter);
  }

  /** At the top level a non-terminal node returns -1 when no column is legal,
      and otherwise the legal column whose running prefix sum is the first best. */
  lemma TopLevelPicksFirstBestColumn(b: Board, player: Cell, counter: int)
    requires b.Valid() && !Terminal(b, player, counter)
    ensures var r := OptimalMove(b, player, counter, true);
            var cols := LegalColumns(b);
            var scores := ChildScores(b, player, counter, true);
            && (|cols| == 0 ==> r == -1)
            && (0 < |cols| ==> exists i :: IsFirstBest(scores, i, |cols|) && r == cols[i])
  {
    NotTerminalRunsLoop(b, player, counter, true);
    ColumnLoopSpec(LegalColumns(b), ChildScores(b, player, counter, true), true, 0, 0, None, -1, 0);
  }

  /** At the top level a non-terminal node returns -1 exactly when no column
      passes CanPlayMove, and otherwise a column that does. */
  lemma TopLevelMoveIsLegal(b: Board, player: Cell, counter: int)
    requires b.Valid() && !Terminal(b, player, counter)
    ensures var r := OptimalMove(b, player, counter, true);
            && (r == -1 <==> forall c :: 0 <= c < b.width ==> !CanPlayMove(b, c))
            && (r != -1 ==> 0 <= r < b.width && CanPlayMove(b, r))
  {
    TopLevelPicksFirstBestColumn(b, player, counter);
    var r := OptimalMove(b, player, counter, true);
    var cols := LegalColumns(b);
    if 0 < |cols| {
      assert CanPlayMove(b, cols[0]);
    }
  }

  /** computer_agent_play. Each pass of its loop stores optimal_move's answer
      (converted to unsigned) and returns when that column passes CanPlayMove.
      The search is deterministic, so a pass that fails is repeated forever:
      None stands for that non-returning loop. */
  function AgentPlay(b: Board, colour: Cell): (move: Option<nat>)
    requires b.Valid()
    ensures move.Some? ==> move.value < b.width && CanPlayMove(b, move.value)
    ensures move.None? ==> !CanPlayMove(b, ToUnsigned(OptimalMove(b, colour, 0, true)))
  {
    var m := ToUnsigned(OptimalMove(b, colour, 0, true));
    if CanPlayMove(b, m) then Some(m) else None
  }

  /** On a board where play continues, the agent returns on its first pass with
      the column the top-level search chose, and that column is legal. */
  lemma AgentPlaysLegalMoveOnOpenBoard(b: Board, colour: Cell)
    requires b.Valid() && b.width <= UintMax && HasWinner(b) == Continue
    ensures AgentPlay(b, colour).Some?
    ensures AgentPlay(b, colour).value == OptimalMove(b, colour, 0, true)
  {
    assert !Terminal(b, colour, 0);
    TopLevelMoveIsLegal(b, colour, 0);
    var r := OptimalMove(b, colour, 0, true);
    assert b.height >= 1 && exists c :: 0 <= c < b.width && CanPlayMove(b, c);
    assert 0 <= r < b.width && CanPlayMove(b, r);
    assert ToUnsigned(r) == r;
  }
}
