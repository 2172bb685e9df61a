/** The board of board.h/board.cpp: a row-major sequence of cells plus the
    `failed` flag, with flag toggling, the win test and cell counting. */
module Boards {
  import opened Cells
  import opened Grid

  datatype Board = Board(width: int, height: int, initBombs: int, cells: seq<Cell>, failed: bool)

  /** The shape every constructed board has: `width * height` cells. */
  predicate Valid(b: Board)
  {
    b.width > 0 && b.height > 0 && |b.cells| == b.width * b.height
  }

  /** `get_total_cells()`. */
  function TotalCells(b: Board): (n: int)
    ensures Valid(b) ==> n == |b.cells|
  {
    b.height * b.width
  }

  /** `board[point]`: the cell at `from_point(point)`. */
  function CellAtPoint(b: Board, p: Point): (c: Cell)
    requires 0 <= FromPoint(b.width, p.0, p.1) < |b.cells|
  {
    b.cells[FromPoint(b.width, p.0, p.1)]
  }

  /** On a square board, indexing by the point of an index gives the cell
      at that index. */
  lemma CellAtPointOfIndex(b: Board, i: int)
    requires Valid(b) && b.width == b.height && 0 <= i < |b.cells|
    ensures 0 <= FromPoint(b.width, FromIndex(b.width, b.height, i).0, FromIndex(b.width, b.height, i).1) < |b.cells|
    ensures CellAtPoint(b, FromIndex(b.width, b.height, i)) == b.cells[i]
  {
    RoundTripSquare(b.width, i, 0, 0);
  }

  // ---------------------------------------------------------------------
  // Counting cells.

  datatype Kind = BombCell | ClosedCell | FlaggedCell | ClosedSafeCell | ClosedBombCell

  predicate Is(c: Cell, k: Kind)
  {
    match k
    case BombCell => c.hasBomb
    case ClosedCell => c.IsClosed()
    case FlaggedCell => c.IsFlagged()
    case ClosedSafeCell => c.IsClosed() && !c.hasBomb
    case ClosedBombCell => c.IsClosed() && c.hasBomb
  }

  /** The number of cells of a kind. */
  function Count(cells: seq<Cell>, k: Kind): (n: nat)
  {
    if cells == [] then 0 else (if Is(cells[0], k) then 1 else 0) + Count(cells[1..], k)
  }

  /** The number of entries of an index list whose cell is of a kind;
      an index listed twice counts twice, as in the source's loops. */
  function CountAt(cells: seq<Cell>, at: seq<int>, k: Kind): (n: nat)
    requires forall x :: 0 <= x < |at| ==> 0 <= at[x] < |cells|
  {
    if at == [] then 0 else (if Is(cells[at[0]], k) then 1 else 0) + CountAt(cells, at[1..], k)
  }

  /** A kind can only shrink when no cell joins it, and shrinks strictly
      when some cell leaves it. */
  lemma {:induction false} CountMonotone(a: seq<Cell>, b: seq<Cell>, k: Kind)
    requires |a| == |b|
    requires forall j :: 0 <= j < |b| && Is(b[j], k) ==> Is(a[j], k)
    ensures Count(b, k) <= Count(a, k)
    ensures (exists j :: 0 <= j < |a| && Is(a[j], k) && !Is(b[j], k)) ==> Count(b, k) < Count(a, k)
  {
    if a != [] {
      CountMonotone(a[1..], b[1..], k);
      if exists j :: 0 <= j < |a| && Is(a[j], k) && !Is(b[j], k) {
        var j :| 0 <= j < |a| && Is(a[j], k) && !Is(b[j], k);
        if j > 0 {
          assert Is(a[1..][j - 1], k) && !Is(b[1..][j - 1], k);
        }
      }
    }
  }

  /** Over a list without repetitions the entry count is the size of the
      set of listed cells of that kind. */
  lemma {:induction false} CountAtDistinct(cells: seq<Cell>, at: seq<int>, k: Kind)
    requires forall x :: 0 <= x < |at| ==> 0 <= at[x] < |cells|
    requires Distinct(at)
    ensures CountAt(cells, at, k) == |set j | j in at && Is(cells[j], k)|
  {
    if at != [] {
      var rest := at[1..];
      DistinctTail(at);
      CountAtDistinct(cells, rest, k);
      KindSetCons(cells, at, k);
    }
  }

  /** The tail of a list without repeats has none, and lacks the head. */
  lemma DistinctTail(at: seq<int>)
    requires Distinct(at) && at != []
    ensures Distinct(at[1..]) && at[0] !in at[1..]
  {
    var rest := at[1..];
    forall a, b | 0 <= a < b < |rest| ensures rest[a] != rest[b] {
      assert rest[a] == at[a + 1] && rest[b] == at[b + 1];
    }
    forall x | 0 <= x < |rest| ensures rest[x] != at[0] {
      assert rest[x] == at[x + 1];
    }
  }

  /** The entries of a list whose cell is of a kind: the head's, if it
      is, and the tail's. */
  lemma KindSetCons(cells: seq<Cell>, at: seq<int>, k: Kind)
    requires forall x :: 0 <= x < |at| ==> 0 <= at[x] < |cells|
    requires at != []
    ensures (set j | j in at && Is(cells[j], k))
      == (if Is(cells[at[0]], k) then {at[0]} else {}) + (set j | j in at[1..] && Is(cells[j], k))
  {
    assert forall j :: j in at <==> j == at[0] || j in at[1..] by {
      assert at == [at[0]] + at[1..];
    }
  }


  /** A positive entry count has an entry of the kind behind it. */
  lemma {:induction false} CountAtWitness(cells: seq<Cell>, at: seq<int>, k: Kind)
    requires forall x :: 0 <= x < |at| ==> 0 <= at[x] < |cells|
    requires CountAt(cells, at, k) > 0
    ensures exists x :: 0 <= x < |at| && Is(cells[at[x]], k)
  {
    if !Is(cells[at[0]], k) {
      CountAtWitness(cells, at[1..], k);
      var y :| 0 <= y < |at[1..]| && Is(cells[at[1..][y]], k);
      assert Is(cells[at[y + 1]], k);
    }
  }

  /** Entry counts only depend on which cells are of the kind. */
  lemma {:induction false} CountAtSameKind(a: seq<Cell>, b: seq<Cell>, at: seq<int>, k: Kind)
    requires |a| == |b|
    requires forall j :: 0 <= j < |a| ==> Is(a[j], k) == Is(b[j], k)
    requires forall x :: 0 <= x < |at| ==> 0 <= at[x] < |a|
    ensures CountAt(a, at, k) == CountAt(b, at, k)
  {
    if at != [] {
      CountAtSameKind(a, b, at[1..], k);
    }
  }

  /** The number of Closed cells: the solver's termination measure. */
  function ClosedCount(b: Board): (n: nat)
  {
    Count(b.cells, ClosedCell)
  }

  // ---------------------------------------------------------------------
  // Neighbour bombs.

  /** The number of bombs among the neighbours `build_neighbor_map` visits. */
  function BombsAround(b: Board, i: int): (n: nat)
    requires Valid(b) && 0 <= i < |b.cells|
  {
    CountAt(b.cells, NeighbourIndices(b.width, b.height, i), BombCell)
  }

  /** Every cell's stored count is the number of bombs around it. */
  predicate CountsConsistent(b: Board)
  {
    Valid(b) && forall i :: 0 <= i < |b.cells| ==> b.cells[i].neighborBombs == BombsAround(b, i)
  }

  /** A consistent count is the number of bombs among the geometrically
      adjacent cells of the board. */
  lemma CountsExact(b: Board, i: int)
    requires CountsConsistent(b) && 0 <= i < |b.cells|
    ensures b.cells[i].neighborBombs == |set j | 0 <= j < |b.cells| && Adjacent(b.width, i, j) && b.cells[j].hasBomb|
  {
    var w := b.width;
    var at := NeighbourIndices(w, b.height, i);
    NeighboursExact(w, b.height, i);
    CountAtDistinct(b.cells, at, BombCell);
    assert (set j | j in at && Is(b.cells[j], BombCell))
        == (set j | 0 <= j < |b.cells| && Adjacent(w, i, j) && b.cells[j].hasBomb);
  }

  // ---------------------------------------------------------------------
  // Flags and the win test.

  /** `toggle_flag(index)`: Closed and Flagged swap, an Opened cell stays. */
  function ToggleFlag(b: Board, i: int): (r: Board)
    requires 0 <= i < |b.cells|
    ensures |r.cells| == |b.cells| && r.width == b.width && r.height == b.height
    ensures r.failed == b.failed && r.initBombs == b.initBombs
    ensures b.cells[i].IsOpened() ==> r == b
    ensures b.cells[i].IsClosed() ==> r.cells[i].IsFlagged()
    ensures b.cells[i].IsFlagged() ==> r.cells[i].IsClosed()
    ensures forall j :: 0 <= j < |b.cells| ==> r.cells[j] == b.cells[j].(state := r.cells[j].state)
    ensures forall j :: 0 <= j < |b.cells| && j != i ==> r.cells[j] == b.cells[j]
  {
    var c := b.cells[i];
    match c.state
    case Opened => b
    case Closed => b.(cells := b.cells[i := c.(state := Flagged)])
    case Flagged => b.(cells := b.cells[i := c.(state := Closed)])
  }

  /** Toggling a flag twice changes nothing. */
  lemma ToggleFlagTwice(b: Board, i: int)
    requires 0 <= i < |b.cells|
    ensures ToggleFlag(ToggleFlag(b, i), i) == b
  {
    var r := ToggleFlag(ToggleFlag(b, i), i);
    assert r.cells == b.cells;
  }

  /** `cleared()`: every safe cell is Opened and no bomb cell is. */
  predicate Cleared(b: Board)
  {
    && (forall j :: 0 <= j < |b.cells| && !b.cells[j].hasBomb ==> b.cells[j].IsOpened())
    && (forall j :: 0 <= j < |b.cells| && b.cells[j].hasBomb ==> !b.cells[j].IsOpened())
  }

  /** The scan of `cleared()`, stopping at the first offending cell. */
  method CheckCleared(b: Board) returns (r: bool)
    ensures r == Cleared(b)
  {
    var i := 0;
    while i < |b.cells|
      invariant 0 <= i <= |b.cells|
      invariant forall j :: 0 <= j < i ==> b.cells[j].hasBomb != b.cells[j].IsOpened()
    {
      var c := b.cells[i];
      if (!c.hasBomb && !c.IsOpened()) || (c.hasBomb && c.IsOpened()) {
        return false;
      }
      i := i + 1;
    }
    return true;
  }

  /** Toggling a flag never changes whether the board is cleared. */
  lemma ToggleFlagKeepsCleared(b: Board, i: int)
    requires 0 <= i < |b.cells|
    ensures Cleared(ToggleFlag(b, i)) == Cleared(b)
  {
  }
}
