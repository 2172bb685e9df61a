/** `LazyInitBoard` (board.cpp:381-475): a board whose bombs are placed
    on the first open, never under the opened cell. */
module LazyBoards {
  import opened Wrappers
  import opened Cells
  import opened Grid
  import opened Boards
  import opened Reveal
  import opened Construction
  import opened Solver
  import opened SolverSoundness

  /** A board and whether its bombs are still to be placed. */
  datatype LazyBoard = LazyBoard(board: Board, beforeInit: bool)

  /** `LazyInitBoard(width, height, n_bombs, ai_check)`: the arguments are
      checked as for a `Board`, and no bomb is placed yet. */
  method NewLazyBoard(width: int, height: int, nBombs: int) returns (r: Result<LazyBoard, string>)
    ensures r.Failure? <==> !LegalArguments(width, height, nBombs)
    ensures r.Failure? ==> r.error == IllegalArguments
    ensures r.Success? ==> var b := r.value.board;
      && r.value.beforeInit && Valid(b) && b.width == width && b.height == height && b.initBombs == nBombs
      && BombSet(b.cells) == {} && Sound(b)
  {
    var made := NewBoard(width, height, nBombs, false, []);
    if made.Failure? {
      return Failure(made.error);
    }
    var b := made.value;
    assert BombSet(b.cells) == {};
    return Success(LazyBoard(b, true));
  }

  /** Opening safe cells moves no bomb. */
  lemma OpensKeepBombs(b: Board, r: Board)
    requires OpensOnlySafe(b, r)
    ensures BombSet(r.cells) == BombSet(b.cells)
  {
    assert forall j :: 0 <= j < |b.cells| ==> r.cells[j].hasBomb == b.cells[j].hasBomb;
  }

  /** Opening safe cells on a board with consistent counts, no flags and
      no marks gives a sound board. */
  lemma FirstOpenSound(b: Board, r: Board)
    requires CountsConsistent(b) && !b.failed && OpensOnlySafe(b, r)
    requires forall j :: 0 <= j < |b.cells| ==> b.cells[j].IsClosed() && !b.cells[j].isAssumption
    ensures Sound(r)
  {
    EvolvesKeepsCounts(b, r, 0);
  }

  /** The cells of one attempt of the generator closure of
      `generateActualBoard` (board.cpp:390-395): fresh cells with `n_bombs`
      bombs placed away from `index`, and their counts. */
  method Place(lb: LazyBoard, index: int, draws: seq<nat>) returns (b: Board)
    requires Valid(lb.board) && LegalArguments(lb.board.width, lb.board.height, lb.board.initBombs)
    requires 0 <= index < |lb.board.cells| && lb.board.initBombs <= |draws|
    ensures Valid(b) && b.width == lb.board.width && b.height == lb.board.height
    ensures b.initBombs == lb.board.initBombs && b.failed == lb.board.failed
    ensures CountsConsistent(b) && |BombSet(b.cells)| == b.initBombs && !b.cells[index].hasBomb
    ensures forall j :: 0 <= j < |b.cells| ==> b.cells[j].IsClosed() && !b.cells[j].isAssumption
  {
    var w, h := lb.board.width, lb.board.height;
    PoolSize(w * h, [index]);
    ExcludedBelowSingle(w * h, index);
    var cells := SetupCells(w, h, lb.board.initBombs, [index], draws);
    b := BuildNeighborMap(Board(w, h, lb.board.initBombs, cells, lb.board.failed));
    assert BombSet(b.cells) == BombSet(cells);
    assert index in [index];
  }

  /** One attempt of the generator closure of `generateActualBoard`
      (board.cpp:390-398): the placed board with `index` opened. */
  method Generate(lb: LazyBoard, index: int, draws: seq<nat>) returns (b: Board)
    requires Valid(lb.board) && LegalArguments(lb.board.width, lb.board.height, lb.board.initBombs)
    requires 0 <= index < |lb.board.cells| && lb.board.initBombs <= |draws|
    ensures Valid(b) && b.width == lb.board.width && b.height == lb.board.height
    ensures b.initBombs == lb.board.initBombs && b.failed == lb.board.failed
    ensures CountsConsistent(b) && |BombSet(b.cells)| == b.initBombs
    ensures !b.cells[index].hasBomb && b.cells[index].IsOpened()
    ensures !lb.board.failed ==> Sound(b)
  {
    var placed := Place(lb, index, draws);
    b := OpenCell(placed, index);
    OpensKeepBombs(placed, b);
    EvolvesKeepsCounts(placed, b, 0);
    if !placed.failed {
      FirstOpenSound(placed, b);
    }
  }

  /** `LazyInitBoard::open_cell(index)` (board.cpp:467-475): the first
      open generates the bombs with `index` excluded and opens it again;
      every later open is `Board::open_cell`. */
  method LazyOpenCell(lb: LazyBoard, index: int, draws: seq<nat>) returns (r: LazyBoard)
    requires Valid(lb.board) && 0 <= index < |lb.board.cells|
    requires lb.beforeInit ==>
      LegalArguments(lb.board.width, lb.board.height, lb.board.initBombs) && lb.board.initBombs <= |draws|
    ensures !r.beforeInit
    ensures !lb.beforeInit ==> r.board == OpenCell(lb.board, index)
    ensures lb.beforeInit ==>
      && Valid(r.board) && r.board.width == lb.board.width && r.board.height == lb.board.height
      && r.board.initBombs == lb.board.initBombs && r.board.failed == lb.board.failed
      && CountsConsistent(r.board) && |BombSet(r.board.cells)| == r.board.initBombs
      && !r.board.cells[index].hasBomb && r.board.cells[index].IsOpened()
    ensures lb.beforeInit && !lb.board.failed ==> Sound(r.board)
  {
    if lb.beforeInit {
      var b := Generate(lb, index, draws);
      b := OpenCell(b, index);
      return LazyBoard(b, false);
    }
    return LazyBoard(OpenCell(lb.board, index), false);
  }
}
