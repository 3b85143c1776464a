/** The Connect-N board of board.c: a row-major grid of cells, row 0 at the bottom,
    with bounds-checked reads, gravity drops, undo, copy and clear. Boards are
    values. board_play and board_unplay, whose C result can be false, return a
    `Change`; board_create, board_duplicate and board_clear always return true in
    the C, so their models return the board alone. */
module Grid {
  import opened Pieces

  /** The largest unsigned int: what `height - 1` becomes on a board of height 0. */
  const UintMax: nat := 0xFFFF_FFFF

  datatype Board = Board(height: nat, width: nat, run: nat, cells: seq<Cell>)
  {
    /** The cell buffer holds exactly width*height cells. */
    predicate Valid() {
      |cells| == width * height
    }

    predicate InBoard(row: int, column: int) {
      0 <= row < height && 0 <= column < width
    }
  }

  /** The boolean result of board_play or board_unplay together with the board after it. */
  datatype Change = Change(ok: bool, board: Board)

  lemma MulMonotone(a: nat, b: nat, c: nat)
    requires a <= b
    ensures a * c <= b * c
  {
  }

  /** Row-major position of a cell: row*width + column. */
  function Index(b: Board, row: nat, column: nat): (i: nat)
    requires b.Valid() && b.InBoard(row, column)
    ensures i < |b.cells|
    ensures i == row * b.width + column
  {
    MulMonotone(row + 1, b.height, b.width);
    row * b.width + column
  }

  /** Distinct positions have distinct row-major indices. */
  lemma IndexInjective(b: Board, r1: nat, c1: nat, r2: nat, c2: nat)
    requires b.Valid() && b.InBoard(r1, c1) && b.InBoard(r2, c2)
    ensures Index(b, r1, c1) == Index(b, r2, c2) <==> r1 == r2 && c1 == c2
  {
    if r1 < r2 {
      MulMonotone(r1 + 1, r2, b.width);
    } else if r2 < r1 {
      MulMonotone(r2 + 1, r1, b.width);
    }
  }

  /** Every index of the buffer is the position of some cell. */
  lemma IndexSurjective(b: Board, i: nat)
    requires b.Valid() && i < |b.cells|
    ensures b.width > 0 && b.InBoard(i / b.width, i % b.width)
    ensures Index(b, i / b.width, i % b.width) == i
  {
    if b.width != 0 && i / b.width >= b.height {
      MulMonotone(b.height, i / b.width, b.width);
    }
  }

  /** The cell at an in-range position. */
  function At(b: Board, row: int, column: int): Cell
    requires b.Valid() && b.InBoard(row, column)
  {
    b.cells[Index(b, row, column)]
  }

  /** Number of empty cells; every successful coloured drop lowers it by one. */
  function EmptyCount(b: Board): nat
  {
    multiset(b.cells)[Empty]
  }

  /** board_create: copies the first width*height entries of `initial`, or makes
      every cell empty when there is no initial layout. Any layout is accepted,
      including columns with holes. */
  function Create(height: nat, width: nat, run: nat, initial: Option<seq<Cell>>): (b: Board)
    requires initial.Some? ==> |initial.value| >= width * height
    ensures b.Valid() && b.height == height && b.width == width && b.run == run
    ensures forall i :: 0 <= i < |b.cells| ==>
              b.cells[i] == (if initial.Some? then initial.value[i] else Empty)
  {
    var n := width * height;
    match initial
    case None => Board(height, width, run, seq(n, _ => Empty))
    case Some(layout) => Board(height, width, run, layout[..n])
  }

  /** board_get: fails outside the grid, otherwise reads cell row*width+column. */
  function Get(b: Board, row: nat, column: nat): (r: Option<Cell>)
    requires b.Valid()
    ensures r.None? <==> row >= b.height || column >= b.width
    ensures r.Some? ==> row * b.width + column < |b.cells| && r.value == b.cells[row * b.width + column]
  {
    if row >= b.height || column >= b.width then None else Some(At(b, row, column))
  }

  /** An int stored into an unsigned int: the value modulo 2^32. */
  function ToUnsigned(x: int): (u: nat)
    ensures u <= UintMax
    ensures 0 <= x <= UintMax ==> u == x
    ensures x == -1 ==> u == UintMax
  {
    x % (UintMax + 1)
  }

  /** The row board.c reads as the top one: `height - 1` in unsigned arithmetic. */
  function TopRow(b: Board): (r: nat)
    ensures b.height <= UintMax + 1 ==> r == ToUnsigned(b.height - 1)
    ensures r < b.height <==> b.height >= 1
  {
    if b.height == 0 then UintMax else b.height - 1
  }

  /** board_can_play_move: false for a column outside the grid, otherwise false
      only when the read of the column's top cell succeeds and finds a piece.
      The player argument is never read and is not part of the model. */
  function CanPlayMove(b: Board, column: nat): (r: bool)
    requires b.Valid()
    ensures r <==> column < b.width && (b.height == 0 || At(b, b.height - 1, column) == Empty)
  {
    column < b.width &&
    match Get(b, TopRow(b), column)
    case None => true
    case Some(piece) => piece == Empty
  }

  /** The left-to-right scan of board_can_play over the top row, from column `column`. */
  function CanPlayFrom(b: Board, column: nat): (r: bool)
    requires b.Valid()
    decreases b.width - column
    ensures r <==> b.height >= 1 && exists c :: column <= c < b.width && CanPlayMove(b, c)
  {
    if column >= b.width then false
    else
      match Get(b, TopRow(b), column)
      case Some(piece) =>
        if piece == Empty then assert CanPlayMove(b, column); true
        else CanPlayFrom(b, column + 1)
      case None => CanPlayFrom(b, column + 1)
  }

  /** board_can_play: some top cell is empty. On a board of height 0 every read
      of the top row fails, so the answer is false although every column passes
      CanPlayMove there. */
  function CanPlay(b: Board): (r: bool)
    requires b.Valid()
    ensures r <==> b.height >= 1 && exists c :: 0 <= c < b.width && CanPlayMove(b, c)
  {
    CanPlayFrom(b, 0)
  }

  /** The bottom-up scan of board_play: the lowest empty row of `column` at or above `row`. */
  function LowestEmptyFrom(b: Board, column: nat, row: nat): (r: Option<nat>)
    requires b.Valid() && column < b.width
    decreases b.height - row
    ensures r.Some? ==> row <= r.value < b.height && At(b, r.value, column) == Empty
    ensures r.Some? ==> forall h :: row <= h < r.value ==> At(b, h, column) != Empty
    ensures r.None? ==> forall h :: row <= h < b.height ==> At(b, h, column) != Empty
  {
    if row >= b.height then None
    else if At(b, row, column) == Empty then Some(row)
    else LowestEmptyFrom(b, column, row + 1)
  }

  function LowestEmpty(b: Board, column: nat): Option<nat>
    requires b.Valid() && column < b.width
  {
    LowestEmptyFrom(b, column, 0)
  }

  /** board_play: when the move is legal, the lowest empty cell of the column
      (found scanning rows upward; the C test `counter % width == column` picks
      w == column because counter == h*width + w) becomes `player`; nothing else
      changes. Otherwise the board is returned unchanged. */
  function Play(b: Board, column: nat, player: Cell): (r: Change)
    requires b.Valid()
    ensures r.board.Valid() && r.board.height == b.height && r.board.width == b.width && r.board.run == b.run
    ensures r.ok <==> CanPlayMove(b, column) && b.height >= 1
    ensures !r.ok ==> r.board == b
    ensures r.ok ==> (LowestEmpty(b, column).Some? &&
                      var i := Index(b, LowestEmpty(b, column).value, column);
                      b.cells[i] == Empty && r.board.cells[i] == player &&
                      forall j :: 0 <= j < |b.cells| && j != i ==> r.board.cells[j] == b.cells[j])
    ensures r.ok && player != Empty ==> EmptyCount(r.board) + 1 == EmptyCount(b)
    ensures r.ok && player == Empty ==> r.board == b
  {
    if !CanPlayMove(b, column) then Change(false, b)
    else
      match LowestEmpty(b, column)
      case None => Change(false, b)
      case Some(row) =>
        var i := Index(b, row, column);
        Change(true, b.(cells := b.cells[i := player]))
  }

  /** The top-down scan of board_unplay: the highest occupied row of `column` at or below `row`. */
  function TopmostFrom(b: Board, column: nat, row: int): (r: Option<nat>)
    requires b.Valid() && column < b.width && row < b.height
    decreases row + 1
    ensures r.Some? ==> r.value <= row && At(b, r.value, column) != Empty
    ensures r.Some? ==> forall h :: r.value < h <= row ==> At(b, h, column) == Empty
    ensures r.None? ==> forall h :: 0 <= h <= row ==> At(b, h, column) == Empty
  {
    if row < 0 then None
    else if At(b, row, column) != Empty then Some(row)
    else TopmostFrom(b, column, row - 1)
  }

  /** The topmost occupied row of a column, if any. */
  function TopmostOccupied(b: Board, column: nat): Option<nat>
    requires b.Valid() && column < b.width
  {
    TopmostFrom(b, column, b.height as int - 1)
  }

  /** board_unplay as written. It finds the topmost occupied row h of the column,
      but clears the cell at the running top-down counter, which is the mirrored
      row height-1-h, not row h. */
  function Unplay(b: Board, column: nat): (r: Change)
    requires b.Valid()
    ensures r.board.Valid() && r.board.height == b.height && r.board.width == b.width && r.board.run == b.run
    ensures r.ok <==> column < b.width && exists h :: 0 <= h < b.height && At(b, h, column) != Empty
    ensures !r.ok ==> r.board == b
    ensures r.ok ==> (TopmostOccupied(b, column).Some? &&
                      var i := Index(b, b.height - 1 - TopmostOccupied(b, column).value, column);
                      r.board.cells[i] == Empty &&
                      forall j :: 0 <= j < |b.cells| && j != i ==> r.board.cells[j] == b.cells[j])
  {
    if column >= b.width then Change(false, b)
    else
      match TopmostOccupied(b, column)
      case None => Change(false, b)
      case Some(h) =>
        Change(true, b.(cells := b.cells[Index(b, b.height - 1 - h, column) := Empty]))
  }

  /** board_unplay as its comment describes it: clear the topmost piece of the column. */
  function UnplayIntended(b: Board, column: nat): (r: Change)
    requires b.Valid()
    ensures r.board.Valid() && r.board.height == b.height && r.board.width == b.width && r.board.run == b.run
    ensures r.ok <==> column < b.width && exists h :: 0 <= h < b.height && At(b, h, column) != Empty
    ensures !r.ok ==> r.board == b
    ensures r.ok ==> (TopmostOccupied(b, column).Some? &&
                      var i := Index(b, TopmostOccupied(b, column).value, column);
                      b.cells[i] != Empty && r.board.cells[i] == Empty &&
                      forall j :: 0 <= j < |b.cells| && j != i ==> r.board.cells[j] == b.cells[j])
  {
    if column >= b.width then Change(false, b)
    else
      match TopmostOccupied(b, column)
      case None => Change(false, b)
      case Some(h) =>
        Change(true, b.(cells := b.cells[Index(b, h, column) := Empty]))
  }

  /** board_duplicate: a board created from the old one's dimensions and cells. */
  function Duplicate(b: Board): (copy: Board)
    requires b.Valid()
    ensures copy == b
  {
    Create(b.height, b.width, b.run, Some(b.cells))
  }

  /** board_clear: every cell becomes empty; the dimensions stay. */
  function Clear(b: Board): (r: Board)
    requires b.Valid()
    ensures r.Valid() && r.height == b.height && r.width == b.width && r.run == b.run
    ensures forall row, column :: r.InBoard(row, column) ==> At(r, row, column) == Empty
    ensures r == Create(b.height, b.width, b.run, None)
  {
    b.(cells := seq(b.width * b.height, _ => Empty))
  }

  /** Every column is a stack: above an empty cell there are only empty cells.
      Boards built by drops from an empty board have this shape. */
  ghost predicate Stacked(b: Board)
    requires b.Valid()
  {
    forall row, higher, column ::
      0 <= row < higher < b.height && 0 <= column < b.width && At(b, row, column) == Empty
      ==> At(b, higher, column) == Empty
  }

  /** Reading a freshly created board: out-of-range reads fail, and an in-range
      read returns entry row*width+column of the initial layout (or Empty). */
  lemma CreateThenGet(height: nat, width: nat, run: nat, initial: Option<seq<Cell>>, row: nat, column: nat)
    requires initial.Some? ==> |initial.value| >= width * height
    ensures var r := Get(Create(height, width, run, initial), row, column);
            && (r.None? <==> row >= height || column >= width)
            && (r.Some? ==> row * width + column < width * height &&
                            r.value == (if initial.Some? then initial.value[row * width + column] else Empty))
  {
  }

  /** A board is determined by its dimensions and what Get returns at every position. */
  lemma GetDeterminesBoard(b1: Board, b2: Board)
    requires b1.Valid() && b2.Valid()
    requires b1.height == b2.height && b1.width == b2.width && b1.run == b2.run
    requires forall row: nat, column: nat :: Get(b1, row, column) == Get(b2, row, column)
    ensures b1 == b2
  {
    forall i | 0 <= i < |b1.cells|
      ensures b1.cells[i] == b2.cells[i]
    {
      IndexSurjective(b1, i);
      var row, column := i / b1.width, i % b1.width;
      assert Get(b1, row, column) == Get(b2, row, column);
    }
  }

  /** Cell view of a successful drop: only the lowest empty cell of the column changes. */
  lemma PlayAt(b: Board, column: nat, player: Cell, row: nat, c: nat)
    requires b.Valid() && Play(b, column, player).ok && b.InBoard(row, c)
    ensures At(Play(b, column, player).board, row, c)
            == if row == LowestEmpty(b, column).value && c == column then player else At(b, row, c)
  {
    IndexInjective(b, row, c, LowestEmpty(b, column).value, column);
  }

  /** A drop keeps every column a stack. */
  lemma PlayKeepsStacked(b: Board, column: nat, player: Cell)
    requires b.Valid() && Stacked(b)
    ensures Stacked(Play(b, column, player).board)
  {
    var r := Play(b, column, player);
    if r.ok {
      var h := LowestEmpty(b, column).value;
      var b' := r.board;
      forall row, higher, c |
        0 <= row < higher < b'.height && 0 <= c < b'.width && At(b', row, c) == Empty
        ensures At(b', higher, c) == Empty
      {
        PlayAt(b, column, player, row, c);
        PlayAt(b, column, player, higher, c);
      }
    }
  }

  /** In a stacked column whose lowest empty row is `h`, the topmost piece after
      dropping a coloured piece there is at row h. */
  lemma TopmostAfterPlay(b: Board, column: nat, player: Cell)
    requires b.Valid() && Stacked(b) && player != Empty
    requires Play(b, column, player).ok
    ensures var b' := Play(b, column, player).board;
            TopmostOccupied(b', column) == LowestEmpty(b, column)
  {
    var b' := Play(b, column, player).board;
    var h := LowestEmpty(b, column).value;
    PlayAt(b, column, player, h, column);
    forall higher | h < higher < b.height
      ensures At(b', higher, column) == Empty
    {
      PlayAt(b, column, player, higher, column);
    }
  }

  /** Round trip of the intended undo: on a stacked board, dropping a coloured
      piece and then removing the topmost piece of that column gives back the
      original board. */
  lemma PlayThenUnplayIntendedRestores(b: Board, column: nat, player: Cell)
    requires b.Valid() && Stacked(b) && player != Empty
    requires Play(b, column, player).ok
    ensures UnplayIntended(Play(b, column, player).board, column) == Change(true, b)
  {
    var b' := Play(b, column, player).board;
    TopmostAfterPlay(b, column, player);
    var h := LowestEmpty(b, column).value;
    var i := Index(b, h, column);
    assert At(b', h, column) != Empty;
    var r := UnplayIntended(b', column);
    assert r.ok;
    assert r.board.cells == b.cells;
  }

  /** Round trip of board_unplay as written: on a stacked board, a drop followed
      by the undo restores the board exactly when the dropped row h is its own
      mirror, 2h + 1 == height (for instance on a board of height 1). */
  lemma PlayThenUnplayAsWritten(b: Board, column: nat, player: Cell)
    requires b.Valid() && Stacked(b) && player != Empty
    requires Play(b, column, player).ok
    ensures Unplay(Play(b, column, player).board, column) == Change(true, b)
            <==> 2 * LowestEmpty(b, column).value + 1 == b.height
  {
    var b' := Play(b, column, player).board;
    TopmostAfterPlay(b, column, player);
    var h := LowestEmpty(b, column).value;
    var i := Index(b, h, column);
    assert At(b', h, column) != Empty;
    var r := Unplay(b', column);
    assert r.ok;
    var m := b.height - 1 - h;
    IndexInjective(b, m, column, h, column);
    if m == h {
      assert r.board.cells == b.cells;
    } else {
      assert r.board.cells[i] == player;
      assert r.board != b;
    }
  }

  /** Round trip of board_unplay as written on any board, stacked or not: a
      coloured drop followed by the undo restores the board exactly when the
      mirror of the topmost occupied row after the drop is the row the piece
      landed in. */
  lemma PlayThenUnplayAsWrittenAnyBoard(b: Board, column: nat, player: Cell)
    requires b.Valid() && player != Empty
    requires Play(b, column, player).ok
    ensures var played := Play(b, column, player).board;
            && TopmostOccupied(played, column).Some?
            && (Unplay(played, column) == Change(true, b)
                <==> b.height - 1 - TopmostOccupied(played, column).value == LowestEmpty(b, column).value)
  {
    var played := Play(b, column, player).board;
    var h := LowestEmpty(b, column).value;
    PlayAt(b, column, player, h, column);
    assert At(played, h, column) != Empty;
    var r := Unplay(played, column);
    assert r.ok;
    var m := b.height - 1 - TopmostOccupied(played, column).value;
    IndexInjective(b, m, column, h, column);
    if m == h {
      assert r.board.cells == b.cells;
    } else {
      assert r.board.cells[Index(b, h, column)] == player;
      assert r.board != b;
    }
  }

  /** A concrete witness: on an empty board one column wide and two rows tall,
      a Blue drop followed by board_unplay leaves the Blue piece in place. */
  lemma UnplayAsWrittenKeepsPiece()
    ensures var b := Create(2, 1, 2, None);
            var played := Play(b, 0, Blue);
            played.ok && Unplay(played.board, 0).ok && Unplay(played.board, 0).board == played.board
            && Unplay(played.board, 0).board != b
  {
    var b := Create(2, 1, 2, None);
    assert At(b, 0, 0) == Empty && At(b, 1, 0) == Empty;
    assert LowestEmpty(b, 0) == Some(0);
    var played := Play(b, 0, Blue);
    assert played.board.cells == [Blue, Empty];
    assert At(played.board, 1, 0) == Empty;
    assert TopmostOccupied(played.board, 0) == Some(0);
    assert Unplay(played.board, 0).board.cells == [Blue, Empty];
  }
}
