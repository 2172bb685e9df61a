/** Building a board (board.cpp): argument validation, bomb placement from
    a sequence of random draws, and the neighbour-bomb counts. */
module Construction {
  import opened Wrappers
  import opened Cells
  import opened Grid
  import opened Boards

  /** The candidate bomb indices of `setup_cells`: every index of the board
      not in `excludes`, in increasing order. */
  function Pool(total: nat, excludes: seq<int>): (r: seq<int>)
    ensures Distinct(r)
    ensures forall x :: x in r <==> 0 <= x < total && x !in excludes
    ensures forall k :: 0 <= k < |r| ==> 0 <= r[k] < total
  {
    if total == 0 then []
    else
      var p := Pool(total - 1, excludes);
      if total - 1 in excludes then p else p + [total - 1]
  }

  /** How many indices below `n` are excluded. */
  function ExcludedBelow(n: nat, excludes: seq<int>): (m: nat)
  {
    if n == 0 then 0 else ExcludedBelow(n - 1, excludes) + (if n - 1 in excludes then 1 else 0)
  }

  lemma {:induction false} PoolSize(total: nat, excludes: seq<int>)
    ensures |Pool(total, excludes)| == total - ExcludedBelow(total, excludes)
  {
    if total > 0 {
      PoolSize(total - 1, excludes);
    }
  }

  /** Excluding one index of the board removes exactly one candidate. */
  lemma {:induction false} ExcludedBelowSingle(n: nat, e: int)
    ensures ExcludedBelow(n, []) == 0
    ensures 0 <= e < n ==> ExcludedBelow(n, [e]) == 1
    ensures n <= e ==> ExcludedBelow(n, [e]) == 0
  {
    if n > 0 {
      ExcludedBelowSingle(n - 1, e);
    }
  }

  /** Removing one entry from a list keeps the others. */
  lemma RemoveAt(s: seq<int>, r: int)
    requires Distinct(s) && 0 <= r < |s|
    ensures Distinct(s[..r] + s[r + 1..])
    ensures forall x :: x in s[..r] + s[r + 1..] <==> x in s && x != s[r]
  {
    var t := s[..r] + s[r + 1..];
    forall a, b | 0 <= a < b < |t| ensures t[a] != t[b] {
      var a' := if a < r then a else a + 1;
      var b' := if b < r then b else b + 1;
      assert t[a] == s[a'] && t[b] == s[b'];
    }
    forall x ensures x in t <==> x in s && x != s[r] {
      if x in s && x != s[r] {
        var k :| 0 <= k < |s| && s[k] == x;
        if k < r { assert t[k] == x; } else { assert t[k - 1] == x; }
      }
    }
  }

  /** The indices of the cells holding a bomb. */
  function BombSet(cells: seq<Cell>): (s: set<int>)
  {
    set j | 0 <= j < |cells| && cells[j].hasBomb
  }

  /** A fresh cell: Closed, no bomb counted around it, no guess. */
  predicate Untouched(c: Cell)
  {
    c.IsClosed() && c.neighborBombs == 0 && !c.isAssumption
  }

  /** `setup_cells(width, height, n_bombs, excludes)`: `width * height`
      bomb-free cells, then `n_bombs` draws, each taking the candidate at
      position `draw % size` out of the pool and putting a bomb there.
      `draws` are the generator's outputs; only the first `nBombs` are used. */
  method SetupCells(width: int, height: int, nBombs: nat, excludes: seq<int>, draws: seq<nat>)
    returns (cells: seq<Cell>)
    requires width > 0 && height > 0
    requires nBombs <= |draws|
    requires nBombs <= |Pool(width * height, excludes)|
    ensures |cells| == width * height
    ensures forall j :: 0 <= j < |cells| ==> Untouched(cells[j])
    ensures |BombSet(cells)| == nBombs
    ensures forall j :: 0 <= j < |cells| && cells[j].hasBomb ==> j !in excludes
  {
    var total := width * height;
    cells := seq(total, _ => NewCell(false));
    var pool := Pool(total, excludes);
    ghost var chosen: set<int> := {};
    var i := 0;
    while i < nBombs
      invariant 0 <= i <= nBombs
      invariant |cells| == total
      invariant forall j :: 0 <= j < total ==> Untouched(cells[j])
      invariant forall j :: 0 <= j < total ==> (cells[j].hasBomb <==> j in chosen)
      invariant Distinct(pool) && |pool| + i == |Pool(total, excludes)|
      invariant forall x :: x in pool ==> 0 <= x < total && x !in excludes && x !in chosen
      invariant forall x :: x in chosen ==> 0 <= x < total && x !in excludes
      invariant |chosen| == i
    {
      var r := draws[i] % |pool|;
      var index := pool[r];
      RemoveAt(pool, r);
      assert index !in chosen;
      var rest := pool[..r] + pool[r + 1..];
      forall x | x in rest
        ensures 0 <= x < total && x !in excludes && x !in chosen + {index}
      {
        assert x in pool && x != index;
      }
      pool := rest;
      cells := cells[index := cells[index].(hasBomb := true)];
      chosen := chosen + {index};
      i := i + 1;
    }
    assert BombSet(cells) == chosen;
  }

  /** `build_neighbor_map()`: every cell gets the number of bombs around it;
      nothing else changes. */
  function BuildNeighborMap(b: Board): (r: Board)
    requires Valid(b)
    ensures CountsConsistent(r)
    ensures r.width == b.width && r.height == b.height && r.initBombs == b.initBombs && r.failed == b.failed
    ensures |r.cells| == |b.cells|
    ensures forall j :: 0 <= j < |b.cells| ==> r.cells[j] == b.cells[j].(neighborBombs := r.cells[j].neighborBombs)
  {
    var cells := seq(|b.cells|, j requires 0 <= j < |b.cells| =>
      b.cells[j].(neighborBombs := CountAt(b.cells, NeighbourIndices(b.width, b.height, j), BombCell)));
    var r := b.(cells := cells);
    assert forall j :: 0 <= j < |b.cells| ==> Is(r.cells[j], BombCell) == Is(b.cells[j], BombCell);
    forall j | 0 <= j < |b.cells|
      ensures r.cells[j].neighborBombs == BombsAround(r, j)
    {
      CountAtSameKind(b.cells, r.cells, NeighbourIndices(b.width, b.height, j), BombCell);
    }
    r
  }

  /** The argument check of the `Board` constructor. */
  predicate LegalArguments(width: int, height: int, nBombs: int)
  {
    !(width <= 0 || height <= 0 || nBombs < 0 || nBombs >= width * height)
  }

  const IllegalArguments := "illegal arguments"

  /** `Board(width, height, n_bombs, initialize)`: rejects illegal arguments;
      otherwise places the bombs and counts neighbours when `initialize`,
      or leaves `width * height` empty Closed cells. */
  method NewBoard(width: int, height: int, nBombs: int, initialize: bool, draws: seq<nat>)
    returns (r: Result<Board, string>)
    requires LegalArguments(width, height, nBombs) && initialize ==> nBombs <= |draws|
    ensures r.Failure? <==> !LegalArguments(width, height, nBombs)
    ensures r.Failure? ==> r.error == IllegalArguments
    ensures r.Success? ==> var b := r.value;
      && Valid(b) && b.width == width && b.height == height && b.initBombs == nBombs
      && !b.failed && CountsConsistent(b)
      && (forall j :: 0 <= j < |b.cells| ==> b.cells[j].IsClosed() && !b.cells[j].isAssumption)
      && |BombSet(b.cells)| == (if initialize then nBombs else 0)
  {
    if !LegalArguments(width, height, nBombs) {
      return Failure(IllegalArguments);
    }
    var cells;
    if initialize {
      PoolSize(width * height, []);
      ExcludedBelowSingle(width * height, 0);
      cells := SetupCells(width, height, nBombs, [], draws);
    } else {
      cells := seq(width * height, _ => NewCell(false));
      assert BombSet(cells) == {};
    }
    var b := BuildNeighborMap(Board(width, height, nBombs, cells, false));
    assert BombSet(b.cells) == BombSet(cells);
    return Success(b);
  }
}
