/** board_has_winner of board.c: six sweeps over straight lines of the board
    (rows, columns, two families of up-right diagonals, two families of up-left
    diagonals), each line scanned with a run counter that is reset at the start
    of the line. The first run found decides the winning colour. */
module WinScan {
  import opened Pieces
  import opened Grid

  /** The verdict of board_has_winner; a win carries the colour stored into `*player`. */
  datatype Verdict = Win(colour: Cell) | Tie | Continue

  /** The int board_has_winner returns for a verdict: WIN 1, TIE -1, CONTINUE 0. */
  function Code(v: Verdict): (c: int)
    ensures c == 1 <==> v.Win?
    ensures c == -1 <==> v.Tie?
    ensures c == 0 <==> v.Continue?
  {
    match v
    case Win(_) => 1
    case Tie => -1
    case Continue => 0
  }

  datatype Direction = Horizontal | Vertical | UpRight | UpLeft

  /** Row of the position k steps from row `row` along direction d. */
  function RowAt(d: Direction, row: int, k: int): int
  {
    match d
    case Horizontal => row
    case _ => row + k
  }

  /** Column of the position k steps from column `column` along direction d. */
  function ColAt(d: Direction, column: int, k: int): int
  {
    match d
    case Horizontal => column + k
    case Vertical => column
    case UpRight => column + k
    case UpLeft => column - k
  }

  /** A straight line of `len` cells starting at (row, column). */
  datatype Line = Line(row: int, column: int, dir: Direction, len: nat)

  ghost predicate LineInBoard(b: Board, l: Line)
  {
    forall k :: 0 <= k < l.len ==> b.InBoard(RowAt(l.dir, l.row, k), ColAt(l.dir, l.column, k))
  }

  /** The cells of a line, in scan order. */
  function LineCells(b: Board, l: Line): (s: seq<Cell>)
    requires b.Valid() && LineInBoard(b, l)
    ensures |s| == l.len
  {
    seq(l.len, k requires 0 <= k < l.len => At(b, RowAt(l.dir, l.row, k), ColAt(l.dir, l.column, k)))
  }

  function Min(a: nat, b: nat): nat
  {
    if a <= b then a else b
  }

  /** Line l is what the inner loop of a sweep visits: its cells are on the
      board and the position after its last cell is not, so the loop guard
      fails exactly there. */
  ghost predicate RunsToEdge(b: Board, l: Line)
  {
    LineInBoard(b, l) && !b.InBoard(RowAt(l.dir, l.row, l.len), ColAt(l.dir, l.column, l.len))
  }

  /** Horizontal sweep (the loops over h, then w): each row, left to right. */
  function Rows(b: Board): (ls: seq<Line>)
    ensures |ls| == b.height
    ensures forall h :: 0 <= h < |ls| ==>
              ls[h].row == h && ls[h].column == 0 && ls[h].dir == Horizontal && RunsToEdge(b, ls[h])
  {
    seq(b.height, h => Line(h, 0, Horizontal, b.width))
  }

  /** Vertical sweep (the loops over w, then h): each column, bottom to top. */
  function Columns(b: Board): (ls: seq<Line>)
    ensures |ls| == b.width
    ensures forall w :: 0 <= w < |ls| ==>
              ls[w].row == 0 && ls[w].column == w && ls[w].dir == Vertical && RunsToEdge(b, ls[w])
  {
    seq(b.width, w => Line(0, w, Vertical, b.height))
  }

  /** First up-right sweep: diagonals starting in column 0 at every row h; the
      inner loop steps while w < width and h_temp < height. */
  function UpRightFromLeft(b: Board): (ls: seq<Line>)
    ensures |ls| == b.height
    ensures forall h :: 0 <= h < |ls| ==>
              ls[h].row == h && ls[h].column == 0 && ls[h].dir == UpRight && RunsToEdge(b, ls[h])
  {
    seq(b.height, h requires 0 <= h < b.height => Line(h, 0, UpRight, Min(b.height - h, b.width)))
  }

  /** Second up-right sweep: diagonals starting in row 0 at columns 1 .. width-1. */
  function UpRightFromBottom(b: Board): (ls: seq<Line>)
    ensures |ls| == if b.width == 0 then 0 else b.width - 1
    ensures forall i :: 0 <= i < |ls| ==>
              ls[i].row == 0 && ls[i].column == i + 1 && ls[i].dir == UpRight && RunsToEdge(b, ls[i])
  {
    var n := if b.width == 0 then 0 else b.width - 1;
    seq(n, i requires 0 <= i < n => Line(0, i + 1, UpRight, Min(b.height, b.width - (i + 1))))
  }

  /** First up-left sweep: diagonals starting in the last column at every row h;
      the inner loop steps while w >= 0 and h_temp < height. */
  function UpLeftFromRight(b: Board): (ls: seq<Line>)
    ensures |ls| == b.height
    ensures forall h :: 0 <= h < |ls| ==>
              ls[h].row == h && ls[h].column == b.width - 1 && ls[h].dir == UpLeft && RunsToEdge(b, ls[h])
  {
    seq(b.height, h requires 0 <= h < b.height => Line(h, b.width - 1, UpLeft, Min(b.height - h, b.width)))
  }

  /** Second up-left sweep: diagonals starting in row 0 at every column w (the
      one from the last column is scanned a second time). The inner loop's guard
      `w_temp < width` compares as unsigned, so the step from column 0 to -1
      reads as UINT_MAX and ends the line at the left edge. */
  function UpLeftFromBottom(b: Board): (ls: seq<Line>)
    ensures |ls| == b.width
    ensures forall w :: 0 <= w < |ls| ==>
              ls[w].row == 0 && ls[w].column == w && ls[w].dir == UpLeft && RunsToEdge(b, ls[w])
  {
    seq(b.width, w requires 0 <= w < b.width => Line(0, w, UpLeft, Min(b.height, w + 1)))
  }

  /** All lines in the order board_has_winner visits them; each stays on the board. */
  function Lines(b: Board): (ls: seq<Line>)
    ensures forall k :: 0 <= k < |ls| ==> LineInBoard(b, ls[k])
  {
    var ls := Rows(b) + Columns(b) + UpRightFromLeft(b) + UpRightFromBottom(b)
              + UpLeftFromRight(b) + UpLeftFromBottom(b);
    assert forall l :: l in ls ==> LineInBoard(b, l);
    ls
  }

  /** `run` equal, non-empty cells of s starting at position j. */
  ghost predicate RunAt(s: seq<Cell>, j: int, run: nat)
  {
    0 <= j < |s| && j + run <= |s| && s[j] != Empty &&
    forall k :: j <= k < j + run ==> s[k] == s[j]
  }

  ghost predicate LineHasRun(s: seq<Cell>, run: nat)
  {
    exists j :: RunAt(s, j, run)
  }

  /** c is the colour of the earliest run in s. */
  ghost predicate IsFirstRunColour(s: seq<Cell>, run: nat, c: Cell)
  {
    exists j :: RunAt(s, j, run) && s[j] == c && forall j' :: 0 <= j' < j ==> !RunAt(s, j', run)
  }

  /** The per-line counter scan: `prev` is piece_temp and `count` is win_counter.
      A cell equal to a non-empty `prev` bumps the counter and wins when it
      reaches `run`; any other cell restarts the counter at 1. It never reports
      Empty, and with run below 2 the counter, which only ever reaches run after
      an increment from 1, never matches. */
  function ScanFrom(s: seq<Cell>, run: nat, i: nat, prev: Cell, count: nat): (r: Option<Cell>)
    requires i <= |s|
    decreases |s| - i
    ensures r.Some? ==> r.value != Empty
    ensures run < 2 && 1 <= count ==> r.None?
  {
    if i == |s| then None
    else if prev == s[i] && prev != Empty then
      if count + 1 == run then Some(s[i]) else ScanFrom(s, run, i + 1, s[i], count + 1)
    else ScanFrom(s, run, i + 1, s[i], 1)
  }

  /** What holds of the counter scan after it has read s[..i] without a win. */
  ghost predicate ScanState(s: seq<Cell>, run: nat, i: nat, prev: Cell, count: nat)
  {
    && i <= |s| && 2 <= run && 1 <= count
    && (i == 0 ==> prev == Empty)
    && (0 < i ==> prev == s[i - 1] && count <= i
                  && (forall k :: i - count <= k < i ==> s[k] == prev)
                  && (prev != Empty && count < i ==> s[i - count - 1] != prev))
    && (prev != Empty ==> count < run)
    && (forall j :: 0 <= j && j + run <= i ==> !RunAt(s, j, run))
  }

  lemma {:induction false} ScanFromFindsFirstRun(s: seq<Cell>, run: nat, i: nat, prev: Cell, count: nat)
    requires ScanState(s, run, i, prev, count)
    ensures var r := ScanFrom(s, run, i, prev, count);
            && (r.Some? <==> LineHasRun(s, run))
            && (r.Some? ==> IsFirstRunColour(s, run, r.value))
    decreases |s| - i
  {
    if i == |s| {
    } else if prev == s[i] && prev != Empty {
      if count + 1 == run {
        var j := i - count;
        assert RunAt(s, j, run);
        assert IsFirstRunColour(s, run, s[i]) by {
          assert s[j] == s[i];
        }
      } else {
        assert forall j :: 0 <= j && j + run <= i + 1 ==> !RunAt(s, j, run);
        ScanFromFindsFirstRun(s, run, i + 1, s[i], count + 1);
      }
    } else {
      assert forall j :: 0 <= j && j + run <= i + 1 ==> !RunAt(s, j, run);
      ScanFromFindsFirstRun(s, run, i + 1, s[i], 1);
    }
  }

  /** One line of the sweep: the colour of the first run of `run` equal
      non-empty cells, found only when run >= 2. */
  function ScanLine(s: seq<Cell>, run: nat): (r: Option<Cell>)
    ensures r.Some? <==> 2 <= run && LineHasRun(s, run)
    ensures r.Some? ==> IsFirstRunColour(s, run, r.value)
  {
    if run < 2 then
      ScanFrom(s, run, 0, Empty, 1)
    else
      ScanFromFindsFirstRun(s, run, 0, Empty, 1);
      ScanFrom(s, run, 0, Empty, 1)
  }

  /** The sweep over lines[i..]: the first line with a run decides. */
  function FirstWin(b: Board, lines: seq<Line>, i: nat): (r: Option<Cell>)
    requires b.Valid() && i <= |lines|
    requires forall k :: 0 <= k < |lines| ==> LineInBoard(b, lines[k])
    decreases |lines| - i
    ensures r.Some? <==> 2 <= b.run && exists k :: i <= k < |lines| && LineHasRun(LineCells(b, lines[k]), b.run)
    ensures r.Some? ==> exists k :: i <= k < |lines|
                          && (forall k' :: i <= k' < k ==> !LineHasRun(LineCells(b, lines[k']), b.run))
                          && IsFirstRunColour(LineCells(b, lines[k]), b.run, r.value)
  {
    if i == |lines| then None
    else
      match ScanLine(LineCells(b, lines[i]), b.run)
      case Some(c) => Some(c)
      case None => FirstWin(b, lines, i + 1)
  }

  /** Reference definition of a winning line: `run` cells of colour c, starting
      at (row, column) and stepping in direction d, all on the board. */
  ghost predicate RunFrom(b: Board, row: int, column: int, d: Direction, c: Cell)
    requires b.Valid()
  {
    c != Empty && b.InBoard(row, column) &&
    forall k :: 0 <= k < b.run ==>
      b.InBoard(RowAt(d, row, k), ColAt(d, column, k)) && At(b, RowAt(d, row, k), ColAt(d, column, k)) == c
  }

  /** Some row, column, up-right or up-left diagonal holds a run of colour c. */
  ghost predicate HasRunOf(b: Board, c: Cell)
    requires b.Valid()
  {
    exists row, column, d :: RunFrom(b, row, column, d, c)
  }

  ghost predicate HasRun(b: Board)
    requires b.Valid()
  {
    exists c :: HasRunOf(b, c)
  }

  /** A run found on a swept line is a run on the board. */
  lemma LineRunIsBoardRun(b: Board, l: Line, j: int)
    requires b.Valid() && LineInBoard(b, l) && RunAt(LineCells(b, l), j, b.run)
    ensures RunFrom(b, RowAt(l.dir, l.row, j), ColAt(l.dir, l.column, j), l.dir, LineCells(b, l)[j])
  {
    var s := LineCells(b, l);
    var row, column := RowAt(l.dir, l.row, j), ColAt(l.dir, l.column, j);
    forall k | 0 <= k < b.run
      ensures b.InBoard(RowAt(l.dir, row, k), ColAt(l.dir, column, k))
      ensures At(b, RowAt(l.dir, row, k), ColAt(l.dir, column, k)) == s[j]
    {
      assert RowAt(l.dir, row, k) == RowAt(l.dir, l.row, j + k);
      assert ColAt(l.dir, column, k) == ColAt(l.dir, l.column, j + k);
      assert s[j + k] == s[j];
    }
  }

  /** A board run that lies on line l from offset j is a run of that line. */
  lemma RunOnLine(b: Board, row: int, column: int, d: Direction, c: Cell, l: Line, j: nat)
    requires b.Valid() && RunFrom(b, row, column, d, c) && 1 <= b.run
    requires LineInBoard(b, l) && l.dir == d && j + b.run <= l.len
    requires RowAt(d, l.row, j) == row && ColAt(d, l.column, j) == column
    ensures RunAt(LineCells(b, l), j, b.run)
  {
    var s := LineCells(b, l);
    forall k | j <= k < j + b.run
      ensures s[k] == c
    {
      assert RowAt(d, l.row, k) == RowAt(d, row, k - j);
      assert ColAt(d, l.column, k) == ColAt(d, column, k - j);
    }
    assert s[j] == c;
  }

  /** The swept line through (row, column) in direction d, and the offset of
      that position on it, given that the segment of `len` cells from there
      stays on the board. */
  lemma LineThrough(b: Board, row: int, column: int, d: Direction, len: nat) returns (l: Line, j: nat)
    requires 1 <= len && b.InBoard(row, column)
    requires b.InBoard(RowAt(d, row, len - 1), ColAt(d, column, len - 1))
    ensures l in Lines(b) && l.dir == d && j + len <= l.len
    ensures RowAt(d, l.row, j) == row && ColAt(d, l.column, j) == column
  {
    match d {
      case Horizontal =>
        l, j := Rows(b)[row], column;
        assert l in Rows(b);
      case Vertical =>
        l, j := Columns(b)[column], row;
        assert l in Columns(b);
      case UpRight =>
        l, j := UpRightLineThrough(b, row, column, len);
      case UpLeft =>
        l, j := UpLeftLineThrough(b, row, column, len);
    }
    InSweepIsInLines(b, l);
  }

  lemma UpRightLineThrough(b: Board, row: int, column: int, len: nat) returns (l: Line, j: nat)
    requires 1 <= len && b.InBoard(row, column)
    requires b.InBoard(RowAt(UpRight, row, len - 1), ColAt(UpRight, column, len - 1))
    ensures (l in UpRightFromLeft(b) || l in UpRightFromBottom(b)) && l.dir == UpRight && j + len <= l.len
    ensures RowAt(UpRight, l.row, j) == row && ColAt(UpRight, l.column, j) == column
  {
    if row >= column {
      l, j := UpRightFromLeft(b)[row - column], column;
      assert l == Line(row - column, 0, UpRight, Min(b.height - (row - column), b.width));
    } else {
      l, j := UpRightFromBottom(b)[column - row - 1], row;
      assert l == Line(0, column - row, UpRight, Min(b.height, b.width - (column - row)));
    }
  }

  lemma UpLeftLineThrough(b: Board, row: int, column: int, len: nat) returns (l: Line, j: nat)
    requires 1 <= len && b.InBoard(row, column)
    requires b.InBoard(RowAt(UpLeft, row, len - 1), ColAt(UpLeft, column, len - 1))
    ensures (l in UpLeftFromRight(b) || l in UpLeftFromBottom(b)) && l.dir == UpLeft && j + len <= l.len
    ensures RowAt(UpLeft, l.row, j) == row && ColAt(UpLeft, l.column, j) == column
  {
    if row + column <= b.width - 1 {
      l, j := UpLeftFromBottom(b)[row + column], row;
      assert l == Line(0, row + column, UpLeft, Min(b.height, row + column + 1));
    } else {
      var h := row + column - (b.width - 1);
      l, j := UpLeftFromRight(b)[h], b.width - 1 - column;
      assert l == Line(h, b.width - 1, UpLeft, Min(b.height - h, b.width));
    }
  }

  lemma InSweepIsInLines(b: Board, l: Line)
    requires l in Rows(b) || l in Columns(b) || l in UpRightFromLeft(b) || l in UpRightFromBottom(b)
             || l in UpLeftFromRight(b) || l in UpLeftFromBottom(b)
    ensures l in Lines(b)
  {
    assert Lines(b) == Rows(b) + Columns(b) + UpRightFromLeft(b) + UpRightFromBottom(b)
                       + UpLeftFromRight(b) + UpLeftFromBottom(b);
  }

  /** Every run on the board lies on one of the swept lines. */
  lemma BoardRunIsLineRun(b: Board, row: int, column: int, d: Direction, c: Cell)
    requires b.Valid() && RunFrom(b, row, column, d, c) && 1 <= b.run
    ensures exists k :: 0 <= k < |Lines(b)| && LineHasRun(LineCells(b, Lines(b)[k]), b.run)
  {
    assert b.InBoard(RowAt(d, row, b.run - 1), ColAt(d, column, b.run - 1));
    var l, j := LineThrough(b, row, column, d, b.run);
    var k :| 0 <= k < |Lines(b)| && Lines(b)[k] == l;
    RunOnLine(b, row, column, d, c, l, j);
  }

  lemma SweepFindsOnlyBoardRuns(b: Board)
    requires b.Valid()
    ensures var r := FirstWin(b, Lines(b), 0);
            r.Some? ==> HasRunOf(b, r.value)
  {
    var ls := Lines(b);
    var r := FirstWin(b, ls, 0);
    if r.Some? {
      var k :| 0 <= k < |ls| && IsFirstRunColour(LineCells(b, ls[k]), b.run, r.value);
      var l := ls[k];
      var s := LineCells(b, l);
      assert IsFirstRunColour(s, b.run, r.value);
      var j :| RunAt(s, j, b.run) && s[j] == r.value;
      LineRunIsBoardRun(b, l, j);
    }
  }

  lemma SweepFindsEveryBoardRun(b: Board)
    requires b.Valid() && 2 <= b.run && HasRun(b)
    ensures FirstWin(b, Lines(b), 0).Some?
  {
    var c :| HasRunOf(b, c);
    var row, column, d :| RunFrom(b, row, column, d, c);
    BoardRunIsLineRun(b, row, column, d, c);
  }

  /** The sweep finds a run exactly when the board has one, and the colour it
      reports is that of a run on the board. */
  lemma SweepMatchesBoard(b: Board)
    requires b.Valid()
    ensures var r := FirstWin(b, Lines(b), 0);
            && (r.Some? <==> 2 <= b.run && HasRun(b))
            && (r.Some? ==> HasRunOf(b, r.value))
  {
    SweepFindsOnlyBoardRuns(b);
    if 2 <= b.run && HasRun(b) {
      SweepFindsEveryBoardRun(b);
    }
  }

  /** The colour c is that of the earliest run on the first swept line that has
      one, in the order rows, columns, up-right diagonals, up-left diagonals. */
  ghost predicate FoundFirst(b: Board, c: Cell)
    requires b.Valid()
  {
    var ls := Lines(b);
    exists k :: 0 <= k < |ls|
      && (forall k' :: 0 <= k' < k ==> !LineHasRun(LineCells(b, ls[k']), b.run))
      && IsFirstRunColour(LineCells(b, ls[k]), b.run, c)
  }

  /** board_has_winner: Win with the colour of the first run found when some
      line holds `run` equal non-empty cells (never when run < 2); otherwise
      Continue while a top cell is empty and Tie when none is. */
  function HasWinner(b: Board): (v: Verdict)
    requires b.Valid()
    ensures v.Win? <==> 2 <= b.run && HasRun(b)
    ensures v.Win? ==> HasRunOf(b, v.colour) && FoundFirst(b, v.colour)
    ensures v.Continue? <==> !(2 <= b.run && HasRun(b)) && CanPlay(b)
    ensures v.Tie? <==> !(2 <= b.run && HasRun(b)) && !CanPlay(b)
  {
    SweepMatchesBoard(b);
    match FirstWin(b, Lines(b), 0)
    case Some(c) => Win(c)
    case None => if CanPlay(b) then Continue else Tie
  }

  /** Only a board with at least one row can be won or still open. */
  lemma NotTieHasRows(b: Board)
    requires b.Valid() && !HasWinner(b).Tie?
    ensures b.height >= 1
  {
    if HasWinner(b).Win? {
      var c :| HasRunOf(b, c);
      var row, column, d :| RunFrom(b, row, column, d, c);
    }
  }
}
