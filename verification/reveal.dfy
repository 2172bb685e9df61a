/** Opening a cell (`open_cell` and its flood fill `open_cell4` in
    board.cpp). */
module Reveal {
  import opened Wrappers
  import opened Cells
  import opened Grid
  import opened Boards

  predicate ClosedSafe(c: Cell)
  {
    c.IsClosed() && !c.hasBomb
  }

  /** The flood fill's termination measure. */
  function ClosedSafeCount(b: Board): (n: nat)
  {
    Count(b.cells, ClosedSafeCell)
  }

  /** `r` is `b` with some Closed safe cells Opened and nothing else changed. */
  predicate OpensOnlySafe(b: Board, r: Board)
  {
    && r.width == b.width && r.height == b.height && r.initBombs == b.initBombs
    && r.failed == b.failed && |r.cells| == |b.cells|
    && forall j :: 0 <= j < |b.cells| ==>
         r.cells[j] == b.cells[j] || (ClosedSafe(b.cells[j]) && r.cells[j] == b.cells[j].(state := Opened))
  }

  /** Cell `j` was Closed and safe in `b` and is Opened in `r`. */
  predicate Newly(b: Board, r: Board, j: int)
    requires 0 <= j < |b.cells| == |r.cells|
  {
    ClosedSafe(b.cells[j]) && r.cells[j].IsOpened()
  }

  /** No neighbour of `j` is left Closed and safe. */
  predicate Settled(r: Board, j: int)
    requires Valid(r) && 0 <= j < |r.cells|
  {
    forall d: Direction :: Step(r.width, r.height, j, d).Some? ==>
      !ClosedSafe(r.cells[Step(r.width, r.height, j, d).value])
  }

  /** Around every cell the fill opened with no bombs around it, nothing
      Closed and safe remains. */
  predicate Closure(b: Board, r: Board)
    requires Valid(b) && OpensOnlySafe(b, r)
  {
    forall j :: 0 <= j < |b.cells| && Newly(b, r, j) && r.cells[j].neighborBombs == 0 ==> Settled(r, j)
  }

  /** Every cell the fill opened, other than `target`, is a neighbour of a
      cell it opened with no bombs around it. */
  predicate Supported(b: Board, r: Board, target: int)
    requires Valid(b) && OpensOnlySafe(b, r)
  {
    forall j :: 0 <= j < |b.cells| && Newly(b, r, j) && j != target ==>
      exists z :: 0 <= z < |b.cells| && Newly(b, r, z) && r.cells[z].neighborBombs == 0
        && IsNeighbour(b.width, b.height, z, j)
  }

  lemma OpensOnlySafeTransitive(a: Board, b: Board, c: Board)
    requires OpensOnlySafe(a, b) && OpensOnlySafe(b, c)
    ensures OpensOnlySafe(a, c)
  {
  }

  lemma SafeCountShrinks(b: Board, r: Board)
    requires OpensOnlySafe(b, r)
    ensures ClosedSafeCount(r) <= ClosedSafeCount(b)
  {
    CountMonotone(b.cells, r.cells, ClosedSafeCell);
  }

  /** `open_cell4(index)`: a Closed safe cell is Opened, and when no bomb
      is around it the fill continues into its neighbours in `FloodOrder`. */
  function Flood(b: Board, i: int): (r: Board)
    requires Valid(b) && 0 <= i < |b.cells|
    ensures OpensOnlySafe(b, r)
    ensures ClosedSafeCount(r) <= ClosedSafeCount(b)
    ensures ClosedSafe(b.cells[i]) ==> r.cells[i].IsOpened()
    ensures !ClosedSafe(b.cells[i]) ==> r == b
    decreases ClosedSafeCount(b), 0, 0
  {
    var c := b.cells[i];
    if c.hasBomb || c.IsOpened() || c.IsFlagged() then b
    else
      var b1 := b.(cells := b.cells[i := c.(state := Opened)]);
      CountMonotone(b.cells, b1.cells, ClosedSafeCell);
      assert Is(b.cells[i], ClosedSafeCell) && !Is(b1.cells[i], ClosedSafeCell);
      if c.neighborBombs > 0 then b1
      else
        var r := FloodDirs(b1, i, 0);
        OpensOnlySafeTransitive(b, b1, r);
        r
  }

  /** The loop of `open_cell4` over the directions `FloodOrder[k..]`. */
  function FloodDirs(b: Board, base: int, k: nat): (r: Board)
    requires Valid(b) && 0 <= base < |b.cells| && k <= 8
    ensures OpensOnlySafe(b, r)
    ensures ClosedSafeCount(r) <= ClosedSafeCount(b)
    ensures forall k' :: k <= k' < 8 && Step(b.width, b.height, base, FloodOrder[k']).Some? ==>
      !ClosedSafe(r.cells[Step(b.width, b.height, base, FloodOrder[k']).value])
    decreases ClosedSafeCount(b), 1, 8 - k
  {
    if k == 8 then b
    else
      var n := Step(b.width, b.height, base, FloodOrder[k]);
      if n.Some? then
        var r1 := Flood(b, n.value);
        var r := FloodDirs(r1, base, k + 1);
        OpensOnlySafeTransitive(b, r1, r);
        r
      else
        FloodDirs(b, base, k + 1)
  }

  /** `open_cell(index)`: opening a bomb only sets `failed`; any other cell
      is handed to the flood fill. */
  function OpenCell(b: Board, i: int): (r: Board)
    requires Valid(b) && 0 <= i < |b.cells|
    ensures b.cells[i].hasBomb ==> r == b.(failed := true)
    ensures !b.cells[i].hasBomb ==> OpensOnlySafe(b, r)
    ensures !b.cells[i].hasBomb && b.cells[i].IsClosed() ==> r.cells[i].IsOpened()
    ensures !b.cells[i].hasBomb && !b.cells[i].IsClosed() ==> r == b
    ensures !b.cells[i].hasBomb ==> OpensOnlySafe(b, r) && Closure(b, r) && Reached(b, r, i)
  {
    if b.cells[i].hasBomb then b.(failed := true)
    else
      FloodClosure(b, i);
      FloodReached(b, i);
      Flood(b, i)
  }

  // ---------------------------------------------------------------------
  // What the fill reaches.

  lemma SettledPersists(r1: Board, r: Board, j: int)
    requires Valid(r1) && OpensOnlySafe(r1, r) && 0 <= j < |r1.cells|
    requires Settled(r1, j)
    ensures Settled(r, j)
  {
  }

  /** A cell opened before stays opened, with the same count. */
  lemma NewlyPersists(b: Board, r1: Board, r: Board, z: int)
    requires OpensOnlySafe(b, r1) && OpensOnlySafe(r1, r) && 0 <= z < |b.cells|
    requires Newly(b, r1, z)
    ensures Newly(b, r, z) && r.cells[z].neighborBombs == r1.cells[z].neighborBombs
  {
  }

  /** A cell opened later was Closed and safe from the start. */
  lemma NewlyLater(b: Board, r1: Board, r: Board, z: int)
    requires OpensOnlySafe(b, r1) && OpensOnlySafe(r1, r) && 0 <= z < |b.cells|
    requires Newly(r1, r, z)
    ensures Newly(b, r, z)
  {
  }

  /** A cell opened by a sequence of fills was opened by one of them. */
  lemma NewlySplit(b: Board, r1: Board, r: Board, j: int)
    requires OpensOnlySafe(b, r1) && OpensOnlySafe(r1, r) && 0 <= j < |b.cells|
    requires Newly(b, r, j)
    ensures Newly(b, r1, j) || Newly(r1, r, j)
  {
  }

  lemma ClosureCompose(b: Board, r1: Board, r: Board)
    requires Valid(b) && OpensOnlySafe(b, r1) && OpensOnlySafe(r1, r)
    requires Closure(b, r1) && Closure(r1, r)
    ensures OpensOnlySafe(b, r) && Closure(b, r)
  {
    forall j | 0 <= j < |b.cells| && Newly(b, r, j) && r.cells[j].neighborBombs == 0
      ensures Settled(r, j)
    {
      NewlySplit(b, r1, r, j);
      if Newly(b, r1, j) {
        SettledPersists(r1, r, j);
      }
    }
  }

  /** After the loop over all of `FloodOrder`, every neighbour of the base
      is settled. */
  lemma FloodDirsSettlesBase(b: Board, base: int)
    requires Valid(b) && 0 <= base < |b.cells|
    ensures Settled(FloodDirs(b, base, 0), base)
  {
    var r := FloodDirs(b, base, 0);
    forall d: Direction | Step(b.width, b.height, base, d).Some?
      ensures !ClosedSafe(r.cells[Step(b.width, b.height, base, d).value])
    {
      var k' := FloodPosition(d);
      assert 0 <= k' < 8 && Step(b.width, b.height, base, FloodOrder[k']).Some?;
    }
  }

  /** The fill leaves no Closed safe cell next to a cell it opened that has
      no bombs around it. */
  lemma {:induction false} FloodClosure(b: Board, i: int)
    requires Valid(b) && 0 <= i < |b.cells|
    ensures Closure(b, Flood(b, i))
    decreases ClosedSafeCount(b), 0, 0
  {
    var c := b.cells[i];
    if !(c.hasBomb || c.IsOpened() || c.IsFlagged()) {
      var b1 := b.(cells := b.cells[i := c.(state := Opened)]);
      CountMonotone(b.cells, b1.cells, ClosedSafeCell);
      assert Is(b.cells[i], ClosedSafeCell) && !Is(b1.cells[i], ClosedSafeCell);
      assert OpensOnlySafe(b, b1);
      if c.neighborBombs == 0 {
        var r := FloodDirs(b1, i, 0);
        FloodDirsClosure(b1, i, 0);
        FloodDirsSettlesBase(b1, i);
        forall j | 0 <= j < |b.cells| && Newly(b, r, j) && r.cells[j].neighborBombs == 0
          ensures Settled(r, j)
        {
          if j != i {
            assert Newly(b1, r, j);
          }
        }
      }
    }
  }

  lemma {:induction false} FloodDirsClosure(b: Board, base: int, k: nat)
    requires Valid(b) && 0 <= base < |b.cells| && k <= 8
    ensures Closure(b, FloodDirs(b, base, k))
    decreases ClosedSafeCount(b), 1, 8 - k
  {
    if k < 8 {
      var n := Step(b.width, b.height, base, FloodOrder[k]);
      if n.Some? {
        var r1 := Flood(b, n.value);
        FloodClosure(b, n.value);
        FloodDirsClosure(r1, base, k + 1);
        ClosureCompose(b, r1, FloodDirs(r1, base, k + 1));
      } else {
        FloodDirsClosure(b, base, k + 1);
      }
    }
  }

  /** Every cell opened between `b` and `r`, other than those next to
      `base`, neighbours a cell opened between them with no bombs around. */
  predicate SupportedAround(b: Board, r: Board, base: int)
    requires Valid(b) && OpensOnlySafe(b, r) && 0 <= base < |b.cells|
  {
    forall j :: 0 <= j < |b.cells| && Newly(b, r, j) ==>
      (IsNeighbour(b.width, b.height, base, j) ||
       exists z :: 0 <= z < |b.cells| && Newly(b, r, z) && r.cells[z].neighborBombs == 0
         && IsNeighbour(b.width, b.height, z, j))
  }

  /** The fill spreads only from cells with no bombs around them: every
      cell it opens besides the target neighbours such a cell it opened. */
  lemma {:induction false} FloodSupported(b: Board, i: int)
    requires Valid(b) && 0 <= i < |b.cells|
    ensures Supported(b, Flood(b, i), i)
    decreases ClosedSafeCount(b), 0, 0
  {
    var c := b.cells[i];
    if !(c.hasBomb || c.IsOpened() || c.IsFlagged()) {
      var b1 := b.(cells := b.cells[i := c.(state := Opened)]);
      CountMonotone(b.cells, b1.cells, ClosedSafeCell);
      assert Is(b.cells[i], ClosedSafeCell) && !Is(b1.cells[i], ClosedSafeCell);
      assert OpensOnlySafe(b, b1);
      if c.neighborBombs == 0 {
        var r := FloodDirs(b1, i, 0);
        FloodDirsSupported(b1, i, 0);
        forall j | 0 <= j < |b.cells| && Newly(b, r, j) && j != i
          ensures exists z :: (0 <= z < |b.cells| && Newly(b, r, z) && r.cells[z].neighborBombs == 0
            && IsNeighbour(b.width, b.height, z, j))
        {
          assert Newly(b1, r, j);
          if IsNeighbour(b.width, b.height, i, j) {
            assert Newly(b, r, i);
          } else {
            var z :| 0 <= z < |b1.cells| && Newly(b1, r, z) && r.cells[z].neighborBombs == 0
              && IsNeighbour(b.width, b.height, z, j);
            assert Newly(b, r, z);
          }
        }
      }
    }
  }

  /** The case of `FloodDirsSupported` for a cell opened by the first fill. */
  lemma SupportedByFirst(b: Board, r1: Board, r: Board, base: int, n: int, d: Direction, j: int)
    requires Valid(b) && OpensOnlySafe(b, r1) && OpensOnlySafe(r1, r)
    requires 0 <= base < |b.cells| && 0 <= n < |b.cells| && 0 <= j < |b.cells|
    requires Step(b.width, b.height, base, d) == Some(n)
    requires Supported(b, r1, n) && Newly(b, r1, j)
    ensures IsNeighbour(b.width, b.height, base, j) ||
      exists z :: 0 <= z < |b.cells| && Newly(b, r, z) && r.cells[z].neighborBombs == 0
        && IsNeighbour(b.width, b.height, z, j)
  {
    if j != n {
      var z :| 0 <= z < |b.cells| && Newly(b, r1, z) && r1.cells[z].neighborBombs == 0
        && IsNeighbour(b.width, b.height, z, j);
      NewlyPersists(b, r1, r, z);
    }
  }

  /** The case of `FloodDirsSupported` for a cell opened by the later fills. */
  lemma SupportedByRest(b: Board, r1: Board, r: Board, base: int, j: int)
    requires Valid(b) && OpensOnlySafe(b, r1) && OpensOnlySafe(r1, r)
    requires 0 <= base < |b.cells| && 0 <= j < |b.cells|
    requires SupportedAround(r1, r, base) && Newly(r1, r, j)
    ensures IsNeighbour(b.width, b.height, base, j) ||
      exists z :: 0 <= z < |b.cells| && Newly(b, r, z) && r.cells[z].neighborBombs == 0
        && IsNeighbour(b.width, b.height, z, j)
  {
    if !IsNeighbour(b.width, b.height, base, j) {
      var z :| 0 <= z < |b.cells| && Newly(r1, r, z) && r.cells[z].neighborBombs == 0
        && IsNeighbour(b.width, b.height, z, j);
      NewlyLater(b, r1, r, z);
    }
  }

  lemma {:induction false} FloodDirsSupported(b: Board, base: int, k: nat)
    requires Valid(b) && 0 <= base < |b.cells| && k <= 8
    ensures SupportedAround(b, FloodDirs(b, base, k), base)
    decreases ClosedSafeCount(b), 1, 8 - k
  {
    if k < 8 {
      var n := Step(b.width, b.height, base, FloodOrder[k]);
      if n.Some? {
        var r1 := Flood(b, n.value);
        var r := FloodDirs(r1, base, k + 1);
        FloodSupported(b, n.value);
        FloodDirsSupported(r1, base, k + 1);
        forall j | 0 <= j < |b.cells| && Newly(b, r, j)
          ensures IsNeighbour(b.width, b.height, base, j) ||
            exists z :: 0 <= z < |b.cells| && Newly(b, r, z) && r.cells[z].neighborBombs == 0
              && IsNeighbour(b.width, b.height, z, j)
        {
          NewlySplit(b, r1, r, j);
          if Newly(b, r1, j) {
            SupportedByFirst(b, r1, r, base, n.value, FloodOrder[k], j);
          } else {
            SupportedByRest(b, r1, r, base, j);
          }
        }
      } else {
        FloodDirsSupported(b, base, k + 1);
      }
    }
  }

  // ---------------------------------------------------------------------
  // Where the fill comes from.

  /** `p` is a walk through cells opened between `b` and `r`: each step
      goes to a neighbour, and every cell it leaves has no bombs around. */
  ghost predicate Chain(b: Board, r: Board, p: seq<int>)
    requires Valid(b) && OpensOnlySafe(b, r)
  {
    && |p| > 0
    && (forall k :: 0 <= k < |p| ==> 0 <= p[k] < |b.cells| && Newly(b, r, p[k]))
    && (forall k :: 0 <= k < |p| - 1 ==>
          r.cells[p[k]].neighborBombs == 0 && IsNeighbour(b.width, b.height, p[k], p[k + 1]))
  }

  /** Every cell opened between `b` and `r` is the end of a walk of
      opened cells that starts at `target`. */
  ghost predicate Reached(b: Board, r: Board, target: int)
    requires Valid(b) && OpensOnlySafe(b, r)
  {
    forall j :: 0 <= j < |b.cells| && Newly(b, r, j) ==>
      exists p :: Chain(b, r, p) && p[0] == target && p[|p| - 1] == j
  }

  /** Every cell opened between `b` and `r` is the end of a walk of
      opened cells that starts next to `base`. */
  ghost predicate ReachedAround(b: Board, r: Board, base: int)
    requires Valid(b) && OpensOnlySafe(b, r) && 0 <= base < |b.cells|
  {
    forall j :: 0 <= j < |b.cells| && Newly(b, r, j) ==>
      exists p :: Chain(b, r, p) && IsNeighbour(b.width, b.height, base, p[0]) && p[|p| - 1] == j
  }

  /** A walk of cells opened by an earlier fill is still one after a later fill. */
  lemma ChainPersists(b: Board, r1: Board, r: Board, p: seq<int>)
    requires Valid(b) && OpensOnlySafe(b, r1) && OpensOnlySafe(r1, r)
    requires Chain(b, r1, p)
    ensures OpensOnlySafe(b, r) && Chain(b, r, p)
  {
    OpensOnlySafeTransitive(b, r1, r);
    forall k | 0 <= k < |p|
      ensures Newly(b, r, p[k]) && r.cells[p[k]].neighborBombs == r1.cells[p[k]].neighborBombs
    {
      NewlyPersists(b, r1, r, p[k]);
    }
  }

  /** A walk of cells opened by a later fill is one since the start. */
  lemma ChainLater(b: Board, r1: Board, r: Board, p: seq<int>)
    requires Valid(b) && OpensOnlySafe(b, r1) && OpensOnlySafe(r1, r)
    requires Chain(r1, r, p)
    ensures OpensOnlySafe(b, r) && Chain(b, r, p)
  {
    OpensOnlySafeTransitive(b, r1, r);
    forall k | 0 <= k < |p|
      ensures Newly(b, r, p[k])
    {
      NewlyLater(b, r1, r, p[k]);
    }
  }

  /** The fill opens nothing that is not joined to the target by a walk
      through opened cells with no bombs around them: it spreads only
      from the target, never into a separate region. */
  lemma {:induction false} FloodReached(b: Board, i: int)
    requires Valid(b) && 0 <= i < |b.cells|
    ensures Reached(b, Flood(b, i), i)
    decreases ClosedSafeCount(b), 0, 0
  {
    var c := b.cells[i];
    if !(c.hasBomb || c.IsOpened() || c.IsFlagged()) {
      var b1 := b.(cells := b.cells[i := c.(state := Opened)]);
      CountMonotone(b.cells, b1.cells, ClosedSafeCell);
      assert Is(b.cells[i], ClosedSafeCell) && !Is(b1.cells[i], ClosedSafeCell);
      if c.neighborBombs == 0 {
        FloodDirsReached(b1, i, 0);
        ReachedFromTarget(b, b1, FloodDirs(b1, i, 0), i);
      } else {
        ReachedFromTarget(b, b1, b1, i);
      }
    } else {
      ReachedNothing(b);
    }
  }

  /** Nothing is opened between a board and itself. */
  lemma ReachedNothing(b: Board)
    requires Valid(b)
    ensures OpensOnlySafe(b, b)
    ensures forall i :: 0 <= i < |b.cells| ==> Reached(b, b, i)
  {
  }

  /** Opening the target and then walks that start next to it: every
      opened cell is reached from the target. */
  lemma ReachedFromTarget(b: Board, b1: Board, r: Board, i: int)
    requires Valid(b) && 0 <= i < |b.cells| && ClosedSafe(b.cells[i])
    requires b1 == b.(cells := b.cells[i := b.cells[i].(state := Opened)])
    requires OpensOnlySafe(b1, r)
    requires r == b1 || (b.cells[i].neighborBombs == 0 && ReachedAround(b1, r, i))
    ensures OpensOnlySafe(b, r) && Reached(b, r, i)
  {
    assert OpensOnlySafe(b, b1);
    OpensOnlySafeTransitive(b, b1, r);
    assert Chain(b, r, [i]);
    forall j | 0 <= j < |b.cells| && Newly(b, r, j)
      ensures exists p :: Chain(b, r, p) && p[0] == i && p[|p| - 1] == j
    {
      if j != i {
        assert Newly(b1, r, j);
        var p :| Chain(b1, r, p) && IsNeighbour(b.width, b.height, i, p[0]) && p[|p| - 1] == j;
        ChainFromTarget(b, b1, r, i, p);
        assert ([i] + p)[|[i] + p| - 1] == j;
      }
    }
  }

  /** Putting the target, opened first with no bombs around it, in front
      of a walk that starts next to it. */
  lemma ChainFromTarget(b: Board, b1: Board, r: Board, i: int, p: seq<int>)
    requires Valid(b) && 0 <= i < |b.cells| && ClosedSafe(b.cells[i])
    requires b1 == b.(cells := b.cells[i := b.cells[i].(state := Opened)])
    requires b.cells[i].neighborBombs == 0 && OpensOnlySafe(b1, r)
    requires Chain(b1, r, p) && IsNeighbour(b.width, b.height, i, p[0])
    ensures OpensOnlySafe(b, r) && Chain(b, r, [i] + p)
  {
    assert OpensOnlySafe(b, b1);
    ChainLater(b, b1, r, p);
    var q := [i] + p;
    forall k | 0 <= k < |q| - 1
      ensures r.cells[q[k]].neighborBombs == 0 && IsNeighbour(b.width, b.height, q[k], q[k + 1])
    {
      if k > 0 {
        assert q[k] == p[k - 1] && q[k + 1] == p[k];
      }
    }
  }

  lemma {:induction false} FloodDirsReached(b: Board, base: int, k: nat)
    requires Valid(b) && 0 <= base < |b.cells| && k <= 8
    ensures ReachedAround(b, FloodDirs(b, base, k), base)
    decreases ClosedSafeCount(b), 1, 8 - k
  {
    if k < 8 {
      var n := Step(b.width, b.height, base, FloodOrder[k]);
      if n.Some? {
        var r1 := Flood(b, n.value);
        FloodReached(b, n.value);
        FloodDirsReached(r1, base, k + 1);
        ReachedAroundCompose(b, r1, FloodDirs(r1, base, k + 1), base, n.value, FloodOrder[k]);
      } else {
        FloodDirsReached(b, base, k + 1);
      }
    } else {
      ReachedNothing(b);
    }
  }

  /** A fill from a neighbour of `base` followed by fills that reach from
      around `base`: everything opened is reached from around `base`. */
  lemma ReachedAroundCompose(b: Board, r1: Board, r: Board, base: int, n: int, d: Direction)
    requires Valid(b) && 0 <= base < |b.cells| && 0 <= n < |b.cells|
    requires Step(b.width, b.height, base, d) == Some(n)
    requires OpensOnlySafe(b, r1) && OpensOnlySafe(r1, r)
    requires Reached(b, r1, n) && ReachedAround(r1, r, base)
    ensures OpensOnlySafe(b, r) && ReachedAround(b, r, base)
  {
    OpensOnlySafeTransitive(b, r1, r);
    forall j | 0 <= j < |b.cells| && Newly(b, r, j)
      ensures exists p :: Chain(b, r, p) && IsNeighbour(b.width, b.height, base, p[0]) && p[|p| - 1] == j
    {
      NewlySplit(b, r1, r, j);
      if Newly(b, r1, j) {
        var p :| Chain(b, r1, p) && p[0] == n && p[|p| - 1] == j;
        ChainPersists(b, r1, r, p);
        assert IsNeighbour(b.width, b.height, base, p[0]);
      } else {
        var p :| Chain(r1, r, p) && IsNeighbour(b.width, b.height, base, p[0]) && p[|p| - 1] == j;
        ChainLater(b, r1, r, p);
      }
    }
  }

  /** Every cell opened between `b` and `r` is the end of a walk of
      opened cells that starts at an entry of `at`. */
  ghost predicate ReachedFromSome(b: Board, r: Board, at: seq<int>)
    requires Valid(b) && OpensOnlySafe(b, r)
  {
    forall j :: 0 <= j < |b.cells| && Newly(b, r, j) ==>
      exists p :: Chain(b, r, p) && p[0] in at && p[|p| - 1] == j
  }

  /** A fill reached from `x` followed by fills reached from the entries
      of `rest`: everything opened is reached from an entry of `at`. */
  lemma ReachedFromSomeCompose(b: Board, r1: Board, r: Board, at: seq<int>)
    requires Valid(b) && at != [] && OpensOnlySafe(b, r1) && OpensOnlySafe(r1, r)
    requires Reached(b, r1, at[0]) && ReachedFromSome(r1, r, at[1..])
    ensures OpensOnlySafe(b, r) && ReachedFromSome(b, r, at)
  {
    OpensOnlySafeTransitive(b, r1, r);
    forall j | 0 <= j < |b.cells| && Newly(b, r, j)
      ensures exists p :: Chain(b, r, p) && p[0] in at && p[|p| - 1] == j
    {
      NewlySplit(b, r1, r, j);
      if Newly(b, r1, j) {
        var p :| Chain(b, r1, p) && p[0] == at[0] && p[|p| - 1] == j;
        ChainPersists(b, r1, r, p);
      } else {
        var p :| Chain(r1, r, p) && p[0] in at[1..] && p[|p| - 1] == j;
        ChainLater(b, r1, r, p);
        assert p[0] in at;
      }
    }
  }

  /** Whether the game is lost plays no part in what a fill opens. */
  lemma FailedIgnored(b: Board, r: Board, f: bool, at: seq<int>)
    requires Valid(b) && OpensOnlySafe(b, r)
    ensures Valid(b.(failed := f)) && OpensOnlySafe(b.(failed := f), r.(failed := f))
    ensures Closure(b, r) ==> Closure(b.(failed := f), r.(failed := f))
    ensures ReachedFromSome(b, r, at) ==> ReachedFromSome(b.(failed := f), r.(failed := f), at)
  {
    if ReachedFromSome(b, r, at) {
      ReachedFailedIgnored(b, r, b.(failed := f), r.(failed := f), at);
    }
  }

  /** The walks of `ReachedFromSome` see only the cells and the grid. */
  lemma ReachedFailedIgnored(b: Board, r: Board, b': Board, r': Board, at: seq<int>)
    requires Valid(b) && OpensOnlySafe(b, r) && ReachedFromSome(b, r, at)
    requires Valid(b') && OpensOnlySafe(b', r')
    requires b'.cells == b.cells && b'.width == b.width && b'.height == b.height && r'.cells == r.cells
    ensures ReachedFromSome(b', r', at)
  {
    forall j | 0 <= j < |b.cells| && Newly(b', r', j)
      ensures exists p :: Chain(b', r', p) && p[0] in at && p[|p| - 1] == j
    {
      assert Newly(b, r, j);
      var p :| Chain(b, r, p) && p[0] in at && p[|p| - 1] == j;
      assert Chain(b', r', p);
    }
  }
}
