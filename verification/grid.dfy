/** Row-major index arithmetic of board.cpp: `from_index`, `from_point` and
    the eight-direction neighbour lookup `get_cell_index`, together with a
    geometric reference neighbourhood the lookup is proved against. */
module Grid {
  import opened Wrappers

  datatype Direction = LeftUp | Up | RightUp | Left | Right | LeftDown | Down | RightDown

  /** `ALL_DIRECTIONS` of ai.h: the order in which the solver and the
      neighbour counter visit neighbours. */
  const AllDirections: seq<Direction> := [LeftUp, Up, RightUp, Left, Right, LeftDown, Down, RightDown]

  /** The order in which the flood fill of `open_cell4` visits neighbours. */
  const FloodOrder: seq<Direction> := [Up, Left, Right, Down, LeftUp, RightUp, LeftDown, RightDown]

  /** Both direction lists name each of the eight directions exactly once. */
  lemma DirectionListsComplete()
    ensures |AllDirections| == 8 && |FloodOrder| == 8
    ensures forall d: Direction :: d in AllDirections && d in FloodOrder
    ensures forall a, b :: 0 <= a < b < 8 ==> AllDirections[a] != AllDirections[b]
    ensures forall a, b :: 0 <= a < b < 8 ==> FloodOrder[a] != FloodOrder[b]
  {
    forall d: Direction
      ensures d in AllDirections && d in FloodOrder
    {
      match d
      case LeftUp => assert AllDirections[0] == d && FloodOrder[4] == d;
      case Up => assert AllDirections[1] == d && FloodOrder[0] == d;
      case RightUp => assert AllDirections[2] == d && FloodOrder[5] == d;
      case Left => assert AllDirections[3] == d && FloodOrder[1] == d;
      case Right => assert AllDirections[4] == d && FloodOrder[2] == d;
      case LeftDown => assert AllDirections[5] == d && FloodOrder[6] == d;
      case Down => assert AllDirections[6] == d && FloodOrder[3] == d;
      case RightDown => assert AllDirections[7] == d && FloodOrder[7] == d;
    }
  }

  /** Where a direction stands in `FloodOrder`. */
  function FloodPosition(d: Direction): (k: nat)
    ensures k < 8 && FloodOrder[k] == d
  {
    match d
    case Up => 0
    case Left => 1
    case Right => 2
    case Down => 3
    case LeftUp => 4
    case RightUp => 5
    case LeftDown => 6
    case RightDown => 7
  }

  /** A (column, row) pair. */
  type Point = (int, int)

  /** `from_index` as written: the row is divided by the HEIGHT. */
  function FromIndex(width: int, height: int, index: int): (p: Point)
    requires width > 0 && height > 0 && index >= 0
  {
    (index % width, index / height)
  }

  /** `from_index` as evidently intended: the row is divided by the width. */
  function FromIndexCorrected(width: int, index: int): (p: Point)
    requires width > 0 && index >= 0
    ensures 0 <= p.0 < width && p.1 >= 0
    ensures FromPoint(width, p.0, p.1) == index
  {
    (index % width, index / width)
  }

  function FromPoint(width: int, column: int, row: int): (index: int)
  {
    column + row * width
  }

  /** The (column, row) displacement a direction stands for. */
  function Offset(d: Direction): (delta: (int, int))
  {
    match d
    case LeftUp => (-1, -1)
    case Up => (0, -1)
    case RightUp => (1, -1)
    case Left => (-1, 0)
    case Right => (1, 0)
    case LeftDown => (-1, 1)
    case Down => (0, 1)
    case RightDown => (1, 1)
  }

  /** The body of `get_cell_index` once the base point is known: one edge
      test per direction, then `from_point` of the shifted coordinates. */
  function GetCellIndexAt(width: int, height: int, p: Point, d: Direction): (r: Option<int>)
  {
    var (column, row) := p;
    match d
    case LeftUp => if column <= 0 || row <= 0 then None else Some(FromPoint(width, column - 1, row - 1))
    case Up => if row <= 0 then None else Some(FromPoint(width, column, row - 1))
    case RightUp => if column >= width - 1 || row <= 0 then None else Some(FromPoint(width, column + 1, row - 1))
    case Left => if column <= 0 then None else Some(FromPoint(width, column - 1, row))
    case Right => if column >= width - 1 then None else Some(FromPoint(width, column + 1, row))
    case LeftDown => if column <= 0 || row >= height - 1 then None else Some(FromPoint(width, column - 1, row + 1))
    case Down => if row >= height - 1 then None else Some(FromPoint(width, column, row + 1))
    case RightDown => if column >= width - 1 || row >= height - 1 then None else Some(FromPoint(width, column + 1, row + 1))
  }

  /** `get_cell_index(base, direction)` as written (through `from_index`). */
  function GetCellIndex(width: int, height: int, base: int, d: Direction): (r: Option<int>)
    requires width > 0 && height > 0 && base >= 0
  {
    GetCellIndexAt(width, height, FromIndex(width, height, base), d)
  }

  /** `get_cell_index` with the corrected `from_index`. */
  function GetCellIndexCorrected(width: int, height: int, base: int, d: Direction): (r: Option<int>)
    requires width > 0 && height > 0 && base >= 0
  {
    GetCellIndexAt(width, height, FromIndexCorrected(width, base), d)
  }

  /** The neighbour lookup every board operation uses: `get_cell_index`
      with the corrected `from_index`. It returns adjacent cells of the
      board only, and on a square board it is `get_cell_index` as written. */
  function Step(width: int, height: int, base: int, d: Direction): (r: Option<int>)
    requires width > 0 && height > 0 && 0 <= base < width * height
    ensures r.Some? ==> 0 <= r.value < width * height && Adjacent(width, base, r.value)
    ensures width == height ==> r == GetCellIndex(width, height, base, d)
  {
    CorrectedLookupSound(width, height, base, d);
    assert width == height ==> GetCellIndex(width, height, base, d) == GetCellIndexCorrected(width, height, base, d) by {
      if width == height {
        SquareLookupIsCorrected(width, base, d);
      }
    }
    GetCellIndexCorrected(width, height, base, d)
  }

  /** The in-board neighbour indices of `base`, in `dirs` order. */
  function CollectSteps(width: int, height: int, base: int, dirs: seq<Direction>): (r: seq<int>)
    requires width > 0 && height > 0 && 0 <= base < width * height
    ensures forall k :: 0 <= k < |r| ==> 0 <= r[k] < width * height
  {
    if dirs == [] then []
    else
      var o := Step(width, height, base, dirs[0]);
      (if o.Some? then [o.value] else []) + CollectSteps(width, height, base, dirs[1..])
  }

  /** The neighbour list the solver and the neighbour counter build. */
  function NeighbourIndices(width: int, height: int, base: int): (r: seq<int>)
    requires width > 0 && height > 0 && 0 <= base < width * height
    ensures forall k :: 0 <= k < |r| ==> 0 <= r[k] < width * height
  {
    CollectSteps(width, height, base, AllDirections)
  }

  /** `j` is reached from `z` by one of the eight directions. */
  predicate IsNeighbour(width: int, height: int, z: int, j: int)
    requires width > 0 && height > 0 && 0 <= z < width * height
  {
    exists d: Direction :: Step(width, height, z, d) == Some(j)
  }

  /** The geometric reference: two distinct cells whose columns and rows
      (computed the intended way) differ by at most one. */
  predicate Adjacent(width: int, i: int, j: int)
    requires width > 0 && i >= 0 && j >= 0
  {
    var (ci, ri) := FromIndexCorrected(width, i);
    var (cj, rj) := FromIndexCorrected(width, j);
    i != j && -1 <= cj - ci <= 1 && -1 <= rj - ri <= 1
  }

  predicate Distinct(s: seq<int>)
  {
    forall a, b :: 0 <= a < b < |s| ==> s[a] != s[b]
  }

  // ---------------------------------------------------------------------
  // Arithmetic facts about row-major indices.

  lemma MulLe(a: int, b: int, w: int)
    requires a <= b && w >= 0
    ensures a * w <= b * w
  {
    assert b * w - a * w == (b - a) * w;
  }

  /** A column in range and any row determine the index uniquely. */
  lemma DivModOfPoint(w: int, c: int, r: int)
    requires 0 <= c < w
    ensures (c + r * w) / w == r && (c + r * w) % w == c
  {
    var x := c + r * w;
    var q := x / w;
    var m := x % w;
    assert x == q * w + m;
    assert (r - q) * w == m - c;
    if r - q >= 1 {
      MulLe(1, r - q, w);
    } else if r - q <= -1 {
      MulLe(r - q, -1, w);
    }
  }

  /** An index on the board lies in a row of the board. */
  lemma RowInRange(w: int, h: int, i: int)
    requires w > 0 && h > 0 && 0 <= i < w * h
    ensures 0 <= i / w < h
  {
    if i / w >= h {
      MulLe(h, i / w, w);
    }
  }

  /** A point of the grid has an index on the board. */
  lemma PointInRange(w: int, h: int, c: int, r: int)
    requires 0 <= c < w && 0 <= r < h
    ensures 0 <= FromPoint(w, c, r) < w * h
  {
    MulLe(0, r, w);
    MulLe(r, h - 1, w);
  }

  // ---------------------------------------------------------------------
  // Index conversion round trips.

  /** On a square board `from_index` and `from_point` are inverse. */
  lemma RoundTripSquare(w: int, i: int, c: int, r: int)
    requires w > 0 && 0 <= i < w * w
    requires 0 <= c < w && 0 <= r < w
    ensures FromIndex(w, w, i) == FromIndexCorrected(w, i)
    ensures FromPoint(w, FromIndex(w, w, i).0, FromIndex(w, w, i).1) == i
    ensures FromIndex(w, w, FromPoint(w, c, r)) == (c, r)
  {
    PointInRange(w, w, c, r);
    DivModOfPoint(w, c, r);
  }

  /** The corrected conversion round-trips on boards of every shape. */
  lemma {:induction false} CorrectedRoundTrip(w: int, h: int, i: int, c: int, r: int)
    requires w > 0 && h > 0 && 0 <= i < w * h
    requires 0 <= c < w && 0 <= r < h
    ensures 0 <= FromIndexCorrected(w, i).1 < h
    ensures FromPoint(w, FromIndexCorrected(w, i).0, FromIndexCorrected(w, i).1) == i
    ensures 0 <= FromPoint(w, c, r) < w * h
    ensures FromIndexCorrected(w, FromPoint(w, c, r)) == (c, r)
  {
    RowInRange(w, h, i);
    PointInRange(w, h, c, r);
    DivModOfPoint(w, c, r);
  }

  /** On a board one column wide and two rows high, `from_index` as
      written puts the second cell in row 0: `from_point` does not return
      it to index 1, `get_cell_index` finds the cell itself below it and
      misses the cell above it. The corrected lookup finds exactly that
      cell above. */
  lemma FromIndexNonSquareCounterexample()
    ensures FromIndex(1, 2, 1) == (0, 0)
    ensures FromPoint(1, FromIndex(1, 2, 1).0, FromIndex(1, 2, 1).1) != 1
    ensures GetCellIndex(1, 2, 1, Down) == Some(1) && GetCellIndex(1, 2, 1, Up) == None
    ensures Adjacent(1, 1, 0) && !Adjacent(1, 1, 1)
    ensures NeighbourIndices(1, 2, 1) == [0]
  {
    assert Step(1, 2, 1, Up) == Some(0);
    assert forall d: Direction :: d != Up ==> Step(1, 2, 1, d) == None;
  }

  // ---------------------------------------------------------------------
  // The lookup against the geometric reference.

  /** From a point of the grid, the edge tests of `get_cell_index` reject
      exactly the moves that leave the grid. */
  lemma GetCellIndexByOffset(w: int, h: int, p: Point, d: Direction)
    requires 0 <= p.0 < w && 0 <= p.1 < h
    ensures var (c, r) := (p.0 + Offset(d).0, p.1 + Offset(d).1);
      GetCellIndexAt(w, h, p, d) == if 0 <= c < w && 0 <= r < h then Some(FromPoint(w, c, r)) else None
  {
  }

  /** The direction whose offset is (dc, dr). */
  function DirectionOf(dc: int, dr: int): (d: Direction)
    requires -1 <= dc <= 1 && -1 <= dr <= 1 && (dc, dr) != (0, 0)
    ensures Offset(d) == (dc, dr)
  {
    if dr == -1 then (if dc == -1 then LeftUp else if dc == 0 then Up else RightUp)
    else if dr == 0 then (if dc == -1 then Left else Right)
    else (if dc == -1 then LeftDown else if dc == 0 then Down else RightDown)
  }

  /** Every index the corrected lookup returns is on the board and adjacent. */
  lemma CorrectedLookupSound(w: int, h: int, i: int, d: Direction)
    requires w > 0 && h > 0 && 0 <= i < w * h
    ensures var o := GetCellIndexCorrected(w, h, i, d);
      o.Some? ==> (0 <= o.value < w * h && Adjacent(w, i, o.value)
        && FromIndexCorrected(w, o.value) == (FromIndexCorrected(w, i).0 + Offset(d).0, FromIndexCorrected(w, i).1 + Offset(d).1))
  {
    var p := FromIndexCorrected(w, i);
    RowInRange(w, h, i);
    GetCellIndexByOffset(w, h, p, d);
    var (c, r) := (p.0 + Offset(d).0, p.1 + Offset(d).1);
    if 0 <= c < w && 0 <= r < h {
      PointInRange(w, h, c, r);
      DivModOfPoint(w, c, r);
    }
  }

  /** Every adjacent cell on the board is returned by the corrected lookup. */
  lemma CorrectedLookupComplete(w: int, h: int, i: int, j: int)
    requires w > 0 && h > 0 && 0 <= i < w * h && 0 <= j < w * h
    requires Adjacent(w, i, j)
    ensures GetCellIndexCorrected(w, h, i, DirectionOf(j % w - i % w, j / w - i / w)) == Some(j)
  {
    RowInRange(w, h, i);
    RowInRange(w, h, j);
    var d := DirectionOf(j % w - i % w, j / w - i / w);
    GetCellIndexByOffset(w, h, FromIndexCorrected(w, i), d);
  }

  /** Two directions that both succeed reach two different cells. */
  lemma CorrectedLookupInjective(w: int, h: int, i: int, d1: Direction, d2: Direction)
    requires w > 0 && h > 0 && 0 <= i < w * h
    requires GetCellIndexCorrected(w, h, i, d1).Some? && GetCellIndexCorrected(w, h, i, d2).Some?
    requires GetCellIndexCorrected(w, h, i, d1) == GetCellIndexCorrected(w, h, i, d2)
    ensures d1 == d2
  {
    CorrectedLookupSound(w, h, i, d1);
    CorrectedLookupSound(w, h, i, d2);
  }

  /** On a square board the lookup as written is the corrected lookup. */
  lemma SquareLookupIsCorrected(w: int, i: int, d: Direction)
    requires w > 0 && 0 <= i < w * w
    ensures GetCellIndex(w, w, i, d) == GetCellIndexCorrected(w, w, i, d)
  {
  }

  lemma {:induction false} CollectStepsMembers(w: int, h: int, base: int, dirs: seq<Direction>, j: int)
    requires w > 0 && h > 0 && 0 <= base < w * h
    ensures j in CollectSteps(w, h, base, dirs) <==> exists k :: 0 <= k < |dirs| && Step(w, h, base, dirs[k]) == Some(j)
  {
    if dirs != [] {
      CollectStepsMembers(w, h, base, dirs[1..], j);
      if exists k :: 0 <= k < |dirs[1..]| && Step(w, h, base, dirs[1..][k]) == Some(j) {
        var k :| 0 <= k < |dirs[1..]| && Step(w, h, base, dirs[1..][k]) == Some(j);
        assert dirs[k + 1] == dirs[1..][k];
      }
      if exists k :: 0 <= k < |dirs| && Step(w, h, base, dirs[k]) == Some(j) {
        var k :| 0 <= k < |dirs| && Step(w, h, base, dirs[k]) == Some(j);
        if k > 0 {
          assert dirs[1..][k - 1] == dirs[k];
        }
      }
    }
  }

  lemma {:induction false} CollectStepsDistinct(w: int, h: int, base: int, dirs: seq<Direction>)
    requires w > 0 && h > 0 && 0 <= base < w * h
    requires forall a, b :: 0 <= a < b < |dirs| ==> dirs[a] != dirs[b]
    requires forall d1: Direction, d2: Direction ::
      Step(w, h, base, d1).Some? && Step(w, h, base, d1) == Step(w, h, base, d2) ==> d1 == d2
    ensures Distinct(CollectSteps(w, h, base, dirs))
  {
    if dirs != [] {
      var rest := CollectSteps(w, h, base, dirs[1..]);
      CollectStepsDistinct(w, h, base, dirs[1..]);
      var o := Step(w, h, base, dirs[0]);
      if o.Some? {
        if o.value in rest {
          CollectStepsMembers(w, h, base, dirs[1..], o.value);
          assert false;
        }
        assert CollectSteps(w, h, base, dirs) == [o.value] + rest;
      }
    }
  }

  /** The neighbour list names exactly the cells of the board that are
      geometrically adjacent, each once. */
  lemma NeighboursExact(w: int, h: int, i: int)
    requires w > 0 && h > 0 && 0 <= i < w * h
    ensures forall j :: j in NeighbourIndices(w, h, i) <==> 0 <= j < w * h && Adjacent(w, i, j)
    ensures Distinct(NeighbourIndices(w, h, i))
  {
    forall j
      ensures j in NeighbourIndices(w, h, i) <==> 0 <= j < w * h && Adjacent(w, i, j)
    {
      CollectStepsMembers(w, h, i, AllDirections, j);
      if 0 <= j < w * h && Adjacent(w, i, j) {
        var d := DirectionOf(j % w - i % w, j / w - i / w);
        CorrectedLookupComplete(w, h, i, j);
        DirectionListsComplete();
        assert d in AllDirections;
        var k :| 0 <= k < |AllDirections| && AllDirections[k] == d;
      }
    }
    forall d1: Direction, d2: Direction | Step(w, h, i, d1).Some? && Step(w, h, i, d1) == Step(w, h, i, d2)
      ensures d1 == d2
    {
      CorrectedLookupInjective(w, h, i, d1, d2);
    }
    DirectionListsComplete();
    CollectStepsDistinct(w, h, i, AllDirections);
  }
}
