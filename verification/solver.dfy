/** The deduction-and-backtracking solver of ai.h and ai.cpp. */
module Solver {
  import opened Wrappers
  import opened Cells
  import opened Grid
  import opened Boards
  import opened Reveal

  /** `AIReasoningError`: the reason a line of reasoning was abandoned. */
  datatype ReasoningError = ReasoningError(reason: string)

  /** Raised when neither deduction nor speculation makes progress. */
  const NoLogic: string := "NO LOGIC"

  /** Raised when an opened cell sees more flags than bombs around it. */
  const TooManyFlags: string := "bombs_around < flagged_cells_around"

  /** The state of a `MineAI`: its speculation depth and the (unused)
      first-move flag. */
  datatype MineAI = MineAI(assumeNestLevel: nat, firstTime: bool)

  /** The solver `solve_all` creates for a nesting level: only the
      outermost one keeps `firsttime` set. */
  function SolverAt(level: nat): (ai: MineAI)
    ensures ai.assumeNestLevel == level
    ensures ai.firstTime <==> level == 0
  {
    MineAI(level, level == 0)
  }

  /** `AICallback::on_step(board, step, nest_level)`: false stops the
      solve. `before_start` returns nothing and is not modelled. */
  type StepCallback = (Board, nat, nat) -> bool

  /** What a finished `solve_all` returns, with the board it leaves. */
  datatype Outcome = Outcome(solved: bool, board: Board)

  // ---------------------------------------------------------------------
  // How solver steps may change a board.

  /** An opened cell the deduction pass may reason from. */
  predicate Firm(c: Cell)
  {
    c.IsOpened() && !c.isAssumption
  }

  /** The cells carrying the assumption mark. */
  function Marks(b: Board): (s: set<int>)
  {
    set j | 0 <= j < |b.cells| && b.cells[j].isAssumption
  }

  /** Shape, bombs and neighbour counts are untouched, no cell becomes
      Closed again, `failed` is never reset, and below the top level it
      is never set either. */
  predicate Evolves(b: Board, r: Board, level: nat)
  {
    && r.width == b.width && r.height == b.height && r.initBombs == b.initBombs
    && |r.cells| == |b.cells|
    && (forall j :: 0 <= j < |b.cells| ==>
          && r.cells[j].hasBomb == b.cells[j].hasBomb
          && r.cells[j].neighborBombs == b.cells[j].neighborBombs
          && (r.cells[j].IsClosed() ==> b.cells[j].IsClosed()))
    && (b.failed ==> r.failed)
    && (level > 0 ==> r.failed == b.failed)
  }

  /** Strictly fewer Closed cells, or the game was lost. */
  predicate Advanced(b: Board, r: Board)
  {
    r.failed || ClosedCount(r) < ClosedCount(b)
  }

  /** The only changes are Closed cells put into state `s` with mark `mark`. */
  predicate OnlyClosedBecome(b: Board, r: Board, s: CellState, mark: bool)
  {
    && r == b.(cells := r.cells)
    && |r.cells| == |b.cells|
    && forall j :: 0 <= j < |b.cells| ==>
         r.cells[j] == b.cells[j] || (b.cells[j].IsClosed() && r.cells[j] == b.cells[j].(state := s, isAssumption := mark))
  }

  /** Changing Closed cells to another state is an evolution at any
      level, and no cell becomes Closed. */
  lemma OnlyClosedBecomeEvolves(b: Board, r: Board, s: CellState, mark: bool, level: nat)
    requires OnlyClosedBecome(b, r, s, mark) && s != Closed
    ensures Evolves(b, r, level)
    ensures forall x :: 0 <= x < |b.cells| && r.cells[x].IsClosed() ==> b.cells[x].IsClosed()
  {
  }

  predicate InRange(b: Board, at: seq<int>)
  {
    forall x :: 0 <= x < |at| ==> 0 <= at[x] < |b.cells|
  }

  lemma EvolvesTransitive(a: Board, b: Board, c: Board, level: nat)
    requires Evolves(a, b, level) && Evolves(b, c, level)
    ensures Evolves(a, c, level)
  {
  }

  /** Fewer Closed cells follow once a Closed cell leaves that state and
      none joins it. */
  lemma ClosedCountDrops(b: Board, r: Board, j: int)
    requires |r.cells| == |b.cells|
    requires forall x :: 0 <= x < |b.cells| && r.cells[x].IsClosed() ==> b.cells[x].IsClosed()
    requires 0 <= j < |b.cells| && b.cells[j].IsClosed() && !r.cells[j].IsClosed()
    ensures ClosedCount(r) < ClosedCount(b)
  {
    CountMonotone(b.cells, r.cells, ClosedCell);
    assert Is(b.cells[j], ClosedCell) && !Is(r.cells[j], ClosedCell);
  }

  lemma ClosedCountKept(b: Board, r: Board)
    requires |r.cells| == |b.cells|
    requires forall x :: 0 <= x < |b.cells| && r.cells[x].IsClosed() ==> b.cells[x].IsClosed()
    ensures ClosedCount(r) <= ClosedCount(b)
  {
    CountMonotone(b.cells, r.cells, ClosedCell);
  }

  // ---------------------------------------------------------------------
  // The deduction pass of `next_step`.

  /** Opening one neighbour of the deduction pass, when it is still
      Closed: with `open_cell` at the top level, and by setting it Opened
      with the assumption mark below it. */
  function OpenOne(b: Board, x: int, level: nat): (r: Board)
    requires Valid(b) && 0 <= x < |b.cells|
    ensures Valid(r) && Evolves(b, r, level)
    ensures level > 0 ==> OnlyClosedBecome(b, r, Opened, true)
    ensures level > 0 ==> forall j :: 0 <= j < |b.cells| && j != x ==> r.cells[j] == b.cells[j]
    ensures level == 0 && !b.cells[x].hasBomb ==> OpensOnlySafe(b, r) && Closure(b, r) && Reached(b, r, x)
    ensures level == 0 && b.cells[x].IsClosed() ==> r == OpenCell(b, x)
    ensures !r.cells[x].IsClosed() || (level == 0 && r.cells[x].hasBomb && r.failed)
    ensures b.cells[x].IsClosed() ==> Advanced(b, r)
    ensures !b.cells[x].IsClosed() ==> r == b
  {
    var c := b.cells[x];
    if !c.IsClosed() then
      ReachedNothing(b);
      b
    else if level == 0 then
      var r := OpenCell(b, x);
      assert !r.failed ==> ClosedCount(r) < ClosedCount(b) by {
        if !r.failed {
          ClosedCountDrops(b, r, x);
        }
      }
      r
    else
      var r := b.(cells := b.cells[x := c.(state := Opened, isAssumption := true)]);
      ClosedCountDrops(b, r, x);
      r
  }

  /** Some entry of `at` is a Closed bomb. */
  predicate HitsBomb(b: Board, at: seq<int>)
    requires InRange(b, at)
  {
    exists x :: 0 <= x < |at| && b.cells[at[x]].IsClosed() && b.cells[at[x]].hasBomb
  }

  /** What opening the neighbour list `at` promises: every entry ends
      up not Closed unless it is a bomb opened at the top level, which
      loses the game. At the top level the game is lost exactly when it
      was already lost or an entry is a Closed bomb, and apart from that
      flag the only change is a set of flood fills: safe cells opened,
      nothing Closed and safe left around an opened cell with no bombs
      around it, and only cells reached by a walk from an entry. Below the
      top level only Closed entries change, to Opened with the assumption
      mark. */
  ghost predicate OpensAround(b: Board, r: Board, at: seq<int>, level: nat)
    requires Valid(b) && InRange(b, at)
  {
    && Valid(r) && Evolves(b, r, level)
    && (level > 0 ==> OnlyClosedBecome(b, r, Opened, true))
    && (level > 0 ==> forall j :: 0 <= j < |b.cells| && j !in at ==> r.cells[j] == b.cells[j])
    && (level == 0 ==> (r.failed <==> b.failed || HitsBomb(b, at)))
    && (level == 0 ==>
          && OpensOnlySafe(b, r.(failed := b.failed))
          && Closure(b, r.(failed := b.failed))
          && ReachedFromSome(b, r.(failed := b.failed), at))
    && (forall x :: 0 <= x < |at| ==>
          !r.cells[at[x]].IsClosed() || (level == 0 && r.cells[at[x]].hasBomb && r.failed))
    && (CountAt(b.cells, at, ClosedCell) > 0 ==> Advanced(b, r))
  }

  /** Opening the neighbours around a cell (ai.cpp:130-147): every entry
      still Closed when it is reached is opened by `OpenOne`. */
  function OpenNeighbours(b: Board, at: seq<int>, level: nat): (r: Board)
    requires Valid(b) && InRange(b, at)
    ensures OpensAround(b, r, at, level)
    decreases |at|
  {
    if at == [] then b
    else
      var b1 := OpenOne(b, at[0], level);
      var r := OpenNeighbours(b1, at[1..], level);
      OpenNeighboursStep(b, b1, r, at, level);
      r
  }

  /** How one `OpenOne` and the rest of the list combine. */
  lemma OpenNeighboursStep(b: Board, b1: Board, r: Board, at: seq<int>, level: nat)
    requires Valid(b) && InRange(b, at) && at != []
    requires b1 == OpenOne(b, at[0], level) && OpensAround(b1, r, at[1..], level)
    ensures OpensAround(b, r, at, level)
  {
    EvolvesTransitive(b, b1, r, level);
    assert forall y :: 0 < y < |at| ==> at[y] == at[1..][y - 1];
    if !r.failed {
      ClosedCountKept(b1, r);
    }
    if level == 0 {
      OpenNeighboursStepTop(b, b1, r, at);
    }
  }

  /** The top-level part of `OpenNeighboursStep`: the fill from the first
      entry, or the lost game if it is a Closed bomb, followed by the rest. */
  lemma OpenNeighboursStepTop(b: Board, b1: Board, r: Board, at: seq<int>)
    requires Valid(b) && InRange(b, at) && at != []
    requires b1 == OpenOne(b, at[0], 0) && OpensAround(b1, r, at[1..], 0)
    ensures r.failed <==> b.failed || HitsBomb(b, at)
    ensures OpensOnlySafe(b, r.(failed := b.failed))
    ensures Closure(b, r.(failed := b.failed)) && ReachedFromSome(b, r.(failed := b.failed), at)
  {
    var x := at[0];
    var b0 := b1.(failed := b.failed);
    var r0 := r.(failed := b.failed);
    assert OpensOnlySafe(b, b0) && Closure(b, b0) && Reached(b, b0, x) by {
      ReachedNothing(b);
    }
    FailedIgnored(b1, r.(failed := b1.failed), b.failed, at[1..]);
    assert r.(failed := b1.failed).(failed := b.failed) == r0;
    ClosureCompose(b, b0, r0);
    ReachedFromSomeCompose(b, b0, r0, at);
    HitsBombStep(b, b0, at);
  }

  /** Fills keep every Closed bomb: the first entry is one, or a later
      entry is one after the fill, exactly when some entry is one. */
  lemma HitsBombStep(b: Board, b0: Board, at: seq<int>)
    requires Valid(b) && InRange(b, at) && at != [] && OpensOnlySafe(b, b0)
    ensures HitsBomb(b, at) <==>
      (b.cells[at[0]].IsClosed() && b.cells[at[0]].hasBomb) || HitsBomb(b0, at[1..])
  {
    if HitsBomb(b, at) {
      var x :| 0 <= x < |at| && b.cells[at[x]].IsClosed() && b.cells[at[x]].hasBomb;
      if x > 0 {
        assert at[1..][x - 1] == at[x];
      }
    }
    if HitsBomb(b0, at[1..]) {
      var y :| 0 <= y < |at[1..]| && b0.cells[at[1..][y]].IsClosed() && b0.cells[at[1..][y]].hasBomb;
      assert at[y + 1] == at[1..][y];
    }
  }

  /** Flagging the neighbours around a cell (ai.cpp:151-164): every
      Closed entry becomes Flagged, marked exactly when `mark` holds. */
  function FlagNeighbours(b: Board, at: seq<int>, mark: bool): (r: Board)
    requires Valid(b) && InRange(b, at)
    ensures Valid(r) && OnlyClosedBecome(b, r, Flagged, mark)
    ensures forall x :: 0 <= x < |at| && b.cells[at[x]].IsClosed() ==>
      r.cells[at[x]] == b.cells[at[x]].(state := Flagged, isAssumption := mark)
    ensures forall j :: 0 <= j < |b.cells| && j !in at ==> r.cells[j] == b.cells[j]
    decreases |at|
  {
    if at == [] then b
    else
      var x := at[0];
      var c := b.cells[x];
      var b1 := if c.IsClosed() then b.(cells := b.cells[x := c.(state := Flagged, isAssumption := mark)]) else b;
      assert forall y :: 0 < y < |at| ==> at[y] == at[1..][y - 1];
      FlagNeighbours(b1, at[1..], mark)
  }

  /** What flagging the neighbour list `at` promises: every Closed entry
      becomes Flagged, marked exactly when `mark` holds, and no other
      cell changes. */
  predicate FlagsAround(b: Board, r: Board, at: seq<int>, mark: bool)
    requires InRange(b, at)
  {
    && OnlyClosedBecome(b, r, Flagged, mark)
    && (forall x :: 0 <= x < |at| && b.cells[at[x]].IsClosed() ==>
          r.cells[at[x]] == b.cells[at[x]].(state := Flagged, isAssumption := mark))
    && (forall j :: 0 <= j < |b.cells| && j !in at ==> r.cells[j] == b.cells[j])
  }

  /** Flagging a list with a Closed entry is progress at any level. */
  lemma FlagNeighboursAdvances(b: Board, at: seq<int>, mark: bool, level: nat)
    requires Valid(b) && InRange(b, at) && CountAt(b.cells, at, ClosedCell) > 0
    ensures Evolves(b, FlagNeighbours(b, at, mark), level)
    ensures Advanced(b, FlagNeighbours(b, at, mark))
  {
    var r := FlagNeighbours(b, at, mark);
    OnlyClosedBecomeEvolves(b, r, Flagged, mark, level);
    CountAtWitness(b.cells, at, ClosedCell);
    var x :| 0 <= x < |at| && b.cells[at[x]].IsClosed();
    ClosedCountDrops(b, r, at[x]);
  }

  /** What the counts around cell `i` allow. */
  datatype Rule = OpenRest | FlagRest | TooMany | NoRule

  /** The number of Flagged neighbours of cell `i`. */
  function FlaggedAround(b: Board, i: int): (n: nat)
    requires Valid(b) && 0 <= i < |b.cells|
  {
    CountAt(b.cells, NeighbourIndices(b.width, b.height, i), FlaggedCell)
  }

  /** The number of Closed neighbours of cell `i`. */
  function ClosedAround(b: Board, i: int): (n: nat)
    requires Valid(b) && 0 <= i < |b.cells|
  {
    CountAt(b.cells, NeighbourIndices(b.width, b.height, i), ClosedCell)
  }

  /** The comparison of the deduction pass for cell `i` (ai.cpp:95-170):
      with B bombs, F flagged and C closed neighbours, B == F and C > 0
      opens the rest, B > F and C == B - F flags the rest, B < F is a
      contradiction. Only Opened cells without the assumption mark are
      used. */
  function RuleAt(b: Board, i: int): (rule: Rule)
    requires Valid(b) && 0 <= i < |b.cells|
    ensures rule != NoRule ==> Firm(b.cells[i])
    ensures rule == TooMany <==> Firm(b.cells[i]) && b.cells[i].neighborBombs < FlaggedAround(b, i)
    ensures rule == OpenRest <==>
      Firm(b.cells[i]) && b.cells[i].neighborBombs == FlaggedAround(b, i) && ClosedAround(b, i) > 0
    ensures rule == FlagRest <==>
      && Firm(b.cells[i]) && b.cells[i].neighborBombs > FlaggedAround(b, i)
      && ClosedAround(b, i) == b.cells[i].neighborBombs - FlaggedAround(b, i)
  {
    var c := b.cells[i];
    if !Firm(c) then NoRule
    else
      var bombs := c.neighborBombs;
      var flagged := FlaggedAround(b, i);
      var closed := ClosedAround(b, i);
      if bombs == flagged then (if closed > 0 then OpenRest else NoRule)
      else if bombs > flagged then (if closed == bombs - flagged then FlagRest else NoRule)
      else TooMany
  }

  /** The result of the deduction pass. */
  datatype Deduction = Deduced(board: Board) | NoDeduction | Contradiction

  /** Carrying out the rule found at cell `i`. */
  function Apply(b: Board, i: int, level: nat): (d: Deduction)
    requires Valid(b) && 0 <= i < |b.cells| && RuleAt(b, i) != NoRule
    ensures d.Contradiction? <==> RuleAt(b, i) == TooMany
    ensures d.Deduced? ==> Valid(d.board) && Evolves(b, d.board, level) && Advanced(b, d.board)
    ensures !d.NoDeduction?
    ensures RuleAt(b, i) == OpenRest ==>
      d.Deduced? && OpensAround(b, d.board, NeighbourIndices(b.width, b.height, i), level)
    ensures RuleAt(b, i) == FlagRest ==> d.Deduced? && FlagsAround(b, d.board, NeighbourIndices(b.width, b.height, i), level > 0)
  {
    var at := NeighbourIndices(b.width, b.height, i);
    match RuleAt(b, i)
    case OpenRest => Deduced(OpenNeighbours(b, at, level))
    case FlagRest =>
      FlagNeighboursAdvances(b, at, level > 0, level);
      Deduced(FlagNeighbours(b, at, level > 0))
    case TooMany => Contradiction
  }

  /** `j` is the first cell from `i` on with an applicable rule. */
  predicate FirstRule(b: Board, i: int, j: int)
    requires Valid(b)
  {
    && 0 <= i <= j < |b.cells| && RuleAt(b, j) != NoRule
    && forall j' :: i <= j' < j ==> RuleAt(b, j') == NoRule
  }

  /** `d` is what the first applicable rule from cell `i` on gives. */
  ghost predicate FirstRuleGives(b: Board, level: nat, i: int, d: Deduction)
    requires Valid(b)
  {
    exists j :: FirstRule(b, i, j) && d == Apply(b, j, level)
  }

  /** The scan of the deduction pass from cell `i` on: the first cell
      with an applicable rule decides the step. */
  function DeduceFrom(b: Board, level: nat, i: int): (d: Deduction)
    requires Valid(b) && 0 <= i <= |b.cells|
    ensures d.NoDeduction? <==> forall j :: i <= j < |b.cells| ==> RuleAt(b, j) == NoRule
    ensures !d.NoDeduction? ==> FirstRuleGives(b, level, i, d)
    ensures d.Deduced? ==> Valid(d.board) && Evolves(b, d.board, level) && Advanced(b, d.board)
    decreases |b.cells| - i
  {
    if i == |b.cells| then NoDeduction
    else if RuleAt(b, i) == NoRule then
      var d := DeduceFrom(b, level, i + 1);
      assert !d.NoDeduction? ==> FirstRuleGives(b, level, i, d) by {
        if !d.NoDeduction? {
          var j :| FirstRule(b, i + 1, j) && d == Apply(b, j, level);
          assert FirstRule(b, i, j);
        }
      }
      d
    else
      assert FirstRule(b, i, i);
      Apply(b, i, level)
  }

  /** A clone `b` with exactly the marks shared with `base` kept
      (`erase_assumption`, ai.cpp:65-76). */
  function EraseAssumption(base: Board, erased: Board): (r: Board)
    requires base.width == erased.width && base.height == erased.height
    requires |base.cells| == |erased.cells|
    ensures r == erased.(cells := r.cells) && |r.cells| == |erased.cells|
    ensures forall j :: 0 <= j < |r.cells| ==> r.cells[j].(isAssumption := false) == erased.cells[j].(isAssumption := false)
    ensures Marks(r) == Marks(erased) * Marks(base)
  {
    var cells := seq(|erased.cells|, j requires 0 <= j < |erased.cells| =>
      if !base.cells[j].isAssumption && erased.cells[j].isAssumption then erased.cells[j].(isAssumption := false)
      else erased.cells[j]);
    erased.(cells := cells)
  }

  /** Erasing twice erases nothing more, and a board erased against
      itself is unchanged. */
  lemma EraseAssumptionIdempotent(base: Board, erased: Board)
    requires base.width == erased.width && base.height == erased.height
    requires |base.cells| == |erased.cells|
    ensures EraseAssumption(base, EraseAssumption(base, erased)) == EraseAssumption(base, erased)
    ensures EraseAssumption(erased, erased) == erased
  {
    var once := EraseAssumption(base, erased);
    assert EraseAssumption(base, once).cells == once.cells;
    assert EraseAssumption(erased, erased).cells == erased.cells;
  }

  // ---------------------------------------------------------------------
  // Speculation and the solve loop.

  /** A cell speculation may try: Closed, with a neighbour the deduction
      pass may reason from (ai.cpp:183-201). */
  predicate Candidate(b: Board, i: int)
    requires Valid(b) && 0 <= i < |b.cells|
  {
    var at := NeighbourIndices(b.width, b.height, i);
    b.cells[i].IsClosed() && exists x :: 0 <= x < |at| && Firm(b.cells[at[x]])
  }

  /** The clone a speculation solves: cell `i` Flagged and marked. */
  function Guess(b: Board, i: int): (g: Board)
    requires Valid(b) && 0 <= i < |b.cells| && b.cells[i].IsClosed()
    ensures Valid(g) && OnlyClosedBecome(b, g, Flagged, true)
    ensures g.cells[i].IsFlagged() && g.cells[i].isAssumption
    ensures forall j :: 0 <= j < |b.cells| && j != i ==> g.cells[j] == b.cells[j]
    ensures ClosedCount(g) < ClosedCount(b)
  {
    var g := b.(cells := b.cells[i := b.cells[i].(state := Flagged, isAssumption := true)]);
    ClosedCountDrops(b, g, i);
    g
  }

  /** A clone of `b` with cell `i` guessed and then solved, once its
      fresh assumption marks are erased, is a board `b` can evolve into
      with fewer Closed cells. */
  lemma AdoptSolvedClone(b: Board, i: int, out: Board, level: nat)
    requires Valid(b) && 0 <= i < |b.cells| && b.cells[i].IsClosed()
    requires Valid(out) && Evolves(Guess(b, i), out, level + 1) && Cleared(out)
    ensures Valid(EraseAssumption(b, out)) && Evolves(b, EraseAssumption(b, out), level)
    ensures EraseAssumption(b, out).failed == b.failed && Cleared(EraseAssumption(b, out))
    ensures ClosedCount(EraseAssumption(b, out)) < ClosedCount(b)
    ensures Marks(EraseAssumption(b, out)) <= Marks(b)
  {
    var g := Guess(b, i);
    ClosedCountKept(g, out);
    var r := EraseAssumption(b, out);
    assert forall j :: 0 <= j < |r.cells| ==> r.cells[j].state == out.cells[j].state;
    assert ClosedCount(r) == ClosedCount(out) by {
      CountMonotone(out.cells, r.cells, ClosedCell);
      CountMonotone(r.cells, out.cells, ClosedCell);
    }
  }

  /** `solve_all(board, logging, cb, nest_level)` (ai.cpp:39-63). */
  function SolveAllAt(b: Board, level: nat, onStep: StepCallback): (r: Result<Outcome, ReasoningError>)
    requires Valid(b)
    ensures r.Success? ==> Valid(r.value.board) && Evolves(b, r.value.board, level)
    ensures r.Success? && r.value.solved ==> Cleared(r.value.board)
    ensures r.Success? && !r.value.solved && !r.value.board.failed ==>
      exists s: nat :: !onStep(r.value.board, s, level)
    ensures r.Failure? ==> r.error.reason == NoLogic || r.error.reason == TooManyFlags
    ensures NextStep(b, level, onStep).Failure? ==> r == Failure(NextStep(b, level, onStep).error)
    ensures (NextStep(b, level, onStep).Success? && onStep(NextStep(b, level, onStep).value, 0, level)
      && Cleared(NextStep(b, level, onStep).value)) ==> r == Success(Outcome(true, NextStep(b, level, onStep).value))
    ensures NextStep(b, level, onStep).Success? ==>
      var v := NextStep(b, level, onStep).value;
      (onStep(v, 0, level) && !Cleared(v) && v.failed ==> r == Success(Outcome(false, v)))
      && (onStep(v, 0, level) && !Cleared(v) && !v.failed ==> r == SolveLoop(v, level, onStep, 1))
    decreases ClosedCount(b), 3, 0
  {
    SolveLoop(b, level, onStep, 0)
  }

  /** The `while (true)` loop of `solve_all`: one `next_step`, then the
      callback, then the cleared and failed checks. */
  function SolveLoop(b: Board, level: nat, onStep: StepCallback, step: nat): (r: Result<Outcome, ReasoningError>)
    requires Valid(b)
    ensures r.Success? ==> Valid(r.value.board) && Evolves(b, r.value.board, level)
    ensures r.Success? && r.value.solved ==> Cleared(r.value.board)
    ensures r.Success? && !r.value.solved && !r.value.board.failed ==>
      exists s: nat :: s >= step && !onStep(r.value.board, s, level)
    ensures r.Failure? ==> r.error.reason == NoLogic || r.error.reason == TooManyFlags
    ensures NextStep(b, level, onStep).Failure? ==> r == Failure(NextStep(b, level, onStep).error)
    ensures NextStep(b, level, onStep).Success? && !onStep(NextStep(b, level, onStep).value, step, level) ==>
      r == Success(Outcome(false, NextStep(b, level, onStep).value))
    ensures (NextStep(b, level, onStep).Success? && onStep(NextStep(b, level, onStep).value, step, level)
      && Cleared(NextStep(b, level, onStep).value)) ==> r == Success(Outcome(true, NextStep(b, level, onStep).value))
    // These two clauses unfold the remaining branches of the body.
    ensures NextStep(b, level, onStep).Success? ==>
      var v := NextStep(b, level, onStep).value;
      (onStep(v, step, level) && !Cleared(v) && v.failed ==> r == Success(Outcome(false, v)))
      && (onStep(v, step, level) && !Cleared(v) && !v.failed ==> r == SolveLoop(v, level, onStep, step + 1))
    decreases ClosedCount(b), 2, 0
  {
    match NextStep(b, level, onStep)
    case Failure(e) => Failure(e)
    case Success(b1) =>
      if !onStep(b1, step, level) then Success(Outcome(false, b1))
      else if Cleared(b1) then Success(Outcome(true, b1))
      else if b1.failed then Success(Outcome(false, b1))
      else
        var r := SolveLoop(b1, level, onStep, step + 1);
        assert r.Success? ==> Evolves(b, r.value.board, level) by {
          if r.Success? {
            EvolvesTransitive(b, b1, r.value.board, level);
          }
        }
        r
  }

  /** `next_step` (ai.cpp:78-231): a deduction if one applies, else a
      speculation; a contradiction found while deducing is an error. */
  function NextStep(b: Board, level: nat, onStep: StepCallback): (r: Result<Board, ReasoningError>)
    requires Valid(b)
    ensures r.Success? ==> Valid(r.value) && Evolves(b, r.value, level) && Advanced(b, r.value)
    ensures r.Failure? ==> r.error.reason == NoLogic || r.error.reason == TooManyFlags
    ensures r.Failure? && r.error.reason == TooManyFlags <==> DeduceFrom(b, level, 0).Contradiction?
    ensures r.Failure? && r.error.reason == NoLogic ==> DeduceFrom(b, level, 0).NoDeduction?
    ensures DeduceFrom(b, level, 0).Deduced? ==> r == Success(DeduceFrom(b, level, 0).board)
    decreases ClosedCount(b), 1, 0
  {
    match DeduceFrom(b, level, 0)
    case Deduced(r) => Success(r)
    case Contradiction => Failure(ReasoningError(TooManyFlags))
    case NoDeduction => Speculate(b, level, onStep, 0)
  }

  /** The speculation pass from cell `i` on (ai.cpp:178-230): each
      candidate is flagged on a clone solved one level deeper; the first
      clone solved replaces the board, errors and unsolved clones move on
      to the next candidate, and running out of candidates is "NO LOGIC". */
  function Speculate(b: Board, level: nat, onStep: StepCallback, i: int): (r: Result<Board, ReasoningError>)
    requires Valid(b) && 0 <= i <= |b.cells|
    ensures r.Success? ==> Valid(r.value) && Evolves(b, r.value, level) && r.value.failed == b.failed
    ensures r.Success? ==> Cleared(r.value) && ClosedCount(r.value) < ClosedCount(b)
    ensures r.Success? ==> Marks(r.value) <= Marks(b)
    ensures r.Success? ==> exists j :: i <= j < |b.cells| && Candidate(b, j)
    ensures r.Failure? ==> r.error == ReasoningError(NoLogic)
    ensures (forall j :: i <= j < |b.cells| ==> !Candidate(b, j)) ==> r.Failure?
    decreases ClosedCount(b), 0, |b.cells| - i
  {
    if i == |b.cells| then Failure(ReasoningError(NoLogic))
    else if !Candidate(b, i) then Speculate(b, level, onStep, i + 1)
    else
      match TryGuess(b, level, onStep, i)
      case Some(v) => Success(v)
      case None => Speculate(b, level, onStep, i + 1)
  }

  /** One candidate of the speculation pass (ai.cpp:203-229): a clone with
      cell `i` flagged is solved one level deeper, and a clone that ends up
      cleared is offered, with its new assumption marks erased. */
  function TryGuess(b: Board, level: nat, onStep: StepCallback, i: int): (r: Option<Board>)
    requires Valid(b) && 0 <= i < |b.cells| && Candidate(b, i)
    ensures r.Some? ==> Valid(r.value) && Evolves(b, r.value, level) && r.value.failed == b.failed
    ensures r.Some? ==> Cleared(r.value) && ClosedCount(r.value) < ClosedCount(b)
    ensures r.Some? ==> Marks(r.value) <= Marks(b)
    decreases ClosedCount(b), 0, 0
  {
    var nested := SolveAllAt(Guess(b, i), level + 1, onStep);
    if nested.Success? && nested.value.solved then
      var out := nested.value.board;
      AdoptSolvedClone(b, i, out, level);
      Some(EraseAssumption(b, out))
    else
      None
  }

  /** `MineAI::solve_all(board, logging, cb)`: the top-level solve. */
  function SolveAll(b: Board, onStep: StepCallback): (r: Result<Outcome, ReasoningError>)
    requires Valid(b)
    ensures r.Success? ==> Valid(r.value.board) && Evolves(b, r.value.board, 0)
    ensures r.Success? && r.value.solved ==> Cleared(r.value.board)
    ensures r.Success? && !r.value.solved && !r.value.board.failed ==>
      exists s: nat :: !onStep(r.value.board, s, 0)
    ensures r.Failure? ==> r.error.reason == NoLogic || r.error.reason == TooManyFlags
    ensures NextStep(b, 0, onStep).Failure? ==> r == Failure(NextStep(b, 0, onStep).error)
    ensures (NextStep(b, 0, onStep).Success? && onStep(NextStep(b, 0, onStep).value, 0, 0)
      && Cleared(NextStep(b, 0, onStep).value)) ==> r == Success(Outcome(true, NextStep(b, 0, onStep).value))
    ensures NextStep(b, 0, onStep).Success? ==>
      var v := NextStep(b, 0, onStep).value;
      (onStep(v, 0, 0) && !Cleared(v) && v.failed ==> r == Success(Outcome(false, v)))
      && (onStep(v, 0, 0) && !Cleared(v) && !v.failed ==> r == SolveLoop(v, 0, onStep, 1))
  {
    SolveAllAt(b, 0, onStep)
  }

  /** Candidate `j`'s guess solves: the clone with `j` flagged is cleared
      one level deeper. */
  ghost predicate GuessSolves(b: Board, level: nat, onStep: StepCallback, j: int)
    requires Valid(b) && 0 <= j < |b.cells|
  {
    Candidate(b, j) && TryGuess(b, level, onStep, j).Some?
  }

  /** `j` is the first candidate from `i` on whose guess solves. */
  ghost predicate FirstGuess(b: Board, level: nat, onStep: StepCallback, i: int, j: int)
    requires Valid(b)
  {
    && 0 <= i <= j < |b.cells| && GuessSolves(b, level, onStep, j)
    && forall k :: i <= k < j ==> !GuessSolves(b, level, onStep, k)
  }

  /** No candidate from `i` on has a guess that solves. */
  ghost predicate NoneSolves(b: Board, level: nat, onStep: StepCallback, i: int)
    requires Valid(b) && 0 <= i
  {
    forall j :: i <= j < |b.cells| ==> !GuessSolves(b, level, onStep, j)
  }

  /** Some candidate from `i` on has a guess that solves, scanned the way
      the speculation pass scans. */
  ghost predicate SomeSolves(b: Board, level: nat, onStep: StepCallback, i: int)
    requires Valid(b) && 0 <= i <= |b.cells|
    decreases |b.cells| - i
  {
    i < |b.cells| && (GuessSolves(b, level, onStep, i) || SomeSolves(b, level, onStep, i + 1))
  }

  /** The scan finds a solving candidate exactly when one exists. */
  lemma {:induction false} SomeSolvesExactly(b: Board, level: nat, onStep: StepCallback, i: int)
    requires Valid(b) && 0 <= i <= |b.cells|
    ensures SomeSolves(b, level, onStep, i) <==> !NoneSolves(b, level, onStep, i)
    decreases |b.cells| - i
  {
    if i < |b.cells| {
      SomeSolvesExactly(b, level, onStep, i + 1);
      assert NoneSolves(b, level, onStep, i) <==>
        !GuessSolves(b, level, onStep, i) && NoneSolves(b, level, onStep, i + 1);
    }
  }

  /** Speculation fails exactly when no candidate's guess solves. */
  lemma SpeculateFails(b: Board, level: nat, onStep: StepCallback, i: int)
    requires Valid(b) && 0 <= i <= |b.cells|
    ensures Speculate(b, level, onStep, i).Failure? <==> NoneSolves(b, level, onStep, i)
  {
    ScanFinds(b, level, onStep, i);
    ScanNeeded(b, level, onStep, i);
    SomeSolvesExactly(b, level, onStep, i);
  }

  /** If the scan from `i` finds a solving candidate, speculation succeeds. */
  ghost predicate FoundSucceeds(b: Board, level: nat, onStep: StepCallback, i: int)
    requires Valid(b) && 0 <= i <= |b.cells|
  {
    SomeSolves(b, level, onStep, i) ==> Speculate(b, level, onStep, i).Success?
  }

  /** Speculation from `i` succeeds only if the scan from `i` finds a
      solving candidate. */
  ghost predicate SuccessFound(b: Board, level: nat, onStep: StepCallback, i: int)
    requires Valid(b) && 0 <= i <= |b.cells|
  {
    Speculate(b, level, onStep, i).Success? ==> SomeSolves(b, level, onStep, i)
  }

  /** A scan that finds a solving candidate makes speculation succeed. */
  lemma {:induction false} ScanFinds(b: Board, level: nat, onStep: StepCallback, i: int)
    requires Valid(b) && 0 <= i <= |b.cells|
    ensures FoundSucceeds(b, level, onStep, i)
    decreases |b.cells| - i
  {
    if i < |b.cells| {
      ScanFinds(b, level, onStep, i + 1);
      FindsStep(b, level, onStep, i);
    }
  }

  /** The inductive step of `ScanFinds`. */
  lemma FindsStep(b: Board, level: nat, onStep: StepCallback, i: int)
    requires Valid(b) && 0 <= i < |b.cells| && FoundSucceeds(b, level, onStep, i + 1)
    ensures FoundSucceeds(b, level, onStep, i)
  {
    SpeculateUnfold(b, level, onStep, i);
  }

  /** Speculation succeeds only on a scan that finds a solving candidate. */
  lemma {:induction false} ScanNeeded(b: Board, level: nat, onStep: StepCallback, i: int)
    requires Valid(b) && 0 <= i <= |b.cells|
    ensures SuccessFound(b, level, onStep, i)
    decreases |b.cells| - i
  {
    if i < |b.cells| {
      ScanNeeded(b, level, onStep, i + 1);
      NeededStep(b, level, onStep, i);
    } else {
      NeededBase(b, level, onStep);
    }
  }

  /** Past the last cell speculation does not succeed. */
  lemma NeededBase(b: Board, level: nat, onStep: StepCallback)
    requires Valid(b)
    ensures SuccessFound(b, level, onStep, |b.cells|)
  {
  }

  /** The inductive step of `ScanNeeded`. */
  lemma NeededStep(b: Board, level: nat, onStep: StepCallback, i: int)
    requires Valid(b) && 0 <= i < |b.cells| && SuccessFound(b, level, onStep, i + 1)
    ensures SuccessFound(b, level, onStep, i)
  {
    SpeculateUnfold(b, level, onStep, i);
  }

  /** The board the speculation pass adopts from candidate `j`: the solved
      clone with its new marks erased. */
  ghost function Adopted(b: Board, level: nat, onStep: StepCallback, j: int): (v: Board)
    requires Valid(b) && 0 <= j < |b.cells| && GuessSolves(b, level, onStep, j)
  {
    TryGuess(b, level, onStep, j).value
  }

  /** `v` is the board adopted from the first candidate from `i` on whose
      guess solves. */
  ghost predicate AdoptsFirst(b: Board, level: nat, onStep: StepCallback, i: int, v: Board)
    requires Valid(b)
  {
    exists j :: FirstGuess(b, level, onStep, i, j) && v == Adopted(b, level, onStep, j)
  }

  /** A successful speculation pass from `i` adopts the board of the first
      candidate from `i` on whose guess solves. */
  ghost predicate AdoptsFirstWhenSolved(b: Board, level: nat, onStep: StepCallback, i: int)
    requires Valid(b) && 0 <= i <= |b.cells|
  {
    Speculate(b, level, onStep, i).Success? ==> AdoptsFirst(b, level, onStep, i, Speculate(b, level, onStep, i).value)
  }

  /** A successful speculation adopts the solved clone of the first
      candidate whose guess solves, with the clone's new marks erased. */
  lemma {:induction false} SpeculateAdopts(b: Board, level: nat, onStep: StepCallback, i: int)
    requires Valid(b) && 0 <= i <= |b.cells|
    ensures AdoptsFirstWhenSolved(b, level, onStep, i)
    decreases |b.cells| - i
  {
    if i < |b.cells| {
      SpeculateAdopts(b, level, onStep, i + 1);
      AdoptsStep(b, level, onStep, i);
    }
  }

  /** The inductive step of `SpeculateAdopts`: candidate `i` is adopted if
      its guess solves, and skipped otherwise. */
  lemma AdoptsStep(b: Board, level: nat, onStep: StepCallback, i: int)
    requires Valid(b) && 0 <= i < |b.cells| && AdoptsFirstWhenSolved(b, level, onStep, i + 1)
    ensures AdoptsFirstWhenSolved(b, level, onStep, i)
  {
    SpeculateUnfold(b, level, onStep, i);
    if GuessSolves(b, level, onStep, i) {
      AdoptsHere(b, level, onStep, i);
    } else if Speculate(b, level, onStep, i).Success? {
      AdoptsSkip(b, level, onStep, i, Speculate(b, level, onStep, i).value);
    }
  }

  /** A candidate whose guess solves is the first from itself on. */
  lemma AdoptsHere(b: Board, level: nat, onStep: StepCallback, i: int)
    requires Valid(b) && 0 <= i < |b.cells| && GuessSolves(b, level, onStep, i)
    ensures AdoptsFirst(b, level, onStep, i, Adopted(b, level, onStep, i))
  {
    assert FirstGuess(b, level, onStep, i, i);
  }

  /** A candidate whose guess does not solve can be skipped. */
  lemma AdoptsSkip(b: Board, level: nat, onStep: StepCallback, i: int, v: Board)
    requires Valid(b) && 0 <= i < |b.cells| && !GuessSolves(b, level, onStep, i)
    requires AdoptsFirst(b, level, onStep, i + 1, v)
    ensures AdoptsFirst(b, level, onStep, i, v)
  {
    var j :| FirstGuess(b, level, onStep, i + 1, j) && v == Adopted(b, level, onStep, j);
    FirstGuessShift(b, level, onStep, i, j);
  }

  /** Skipping one candidate keeps the first solving guess. */
  lemma FirstGuessShift(b: Board, level: nat, onStep: StepCallback, i: int, j: int)
    requires Valid(b) && 0 <= i < |b.cells| && !GuessSolves(b, level, onStep, i)
    requires FirstGuess(b, level, onStep, i + 1, j)
    ensures FirstGuess(b, level, onStep, i, j)
  {
  }

  /** One candidate of the speculation pass: a guess that solves is
      adopted, anything else moves on to the next cell. */
  lemma SpeculateUnfold(b: Board, level: nat, onStep: StepCallback, i: int)
    requires Valid(b) && 0 <= i < |b.cells|
    ensures GuessSolves(b, level, onStep, i) ==> Speculate(b, level, onStep, i) == Success(Adopted(b, level, onStep, i))
    ensures !GuessSolves(b, level, onStep, i) ==> Speculate(b, level, onStep, i) == Speculate(b, level, onStep, i + 1)
  {
  }

  /** `next_step` throws "NO LOGIC" exactly when no rule applies and no
      candidate's guess solves; it throws the contradiction exactly when
      the deduction pass meets one; otherwise it carries out the first
      rule found or adopts the first solved guess. */
  lemma NextStepChoice(b: Board, level: nat, onStep: StepCallback)
    requires Valid(b)
    ensures NextStep(b, level, onStep) == Failure(ReasoningError(NoLogic)) <==>
      DeduceFrom(b, level, 0).NoDeduction? && NoneSolves(b, level, onStep, 0)
    ensures NextStep(b, level, onStep) == Failure(ReasoningError(TooManyFlags)) <==>
      DeduceFrom(b, level, 0).Contradiction?
    ensures DeduceFrom(b, level, 0).Deduced? ==> NextStep(b, level, onStep) == Success(DeduceFrom(b, level, 0).board)
    ensures DeduceFrom(b, level, 0).NoDeduction? && NextStep(b, level, onStep).Success? ==>
      AdoptsFirst(b, level, onStep, 0, NextStep(b, level, onStep).value)
  {
    SpeculateFails(b, level, onStep, 0);
    SpeculateAdopts(b, level, onStep, 0);
  }

  /** `open_any()` (ai.cpp:18-32): opens the lowest-index Closed cell. */
  method OpenAny(b: Board) returns (r: Board, index: Option<int>)
    requires Valid(b)
    ensures index.None? <==> forall j :: 0 <= j < |b.cells| ==> !b.cells[j].IsClosed()
    ensures index.None? ==> r == b
    ensures index.Some? ==>
      && 0 <= index.value < |b.cells| && b.cells[index.value].IsClosed()
      && (forall j :: 0 <= j < index.value ==> !b.cells[j].IsClosed())
      && r == OpenCell(b, index.value)
    ensures index.Some? ==> (r.failed <==> b.failed || b.cells[index.value].hasBomb)
    ensures index.Some? && !b.cells[index.value].hasBomb ==> r.cells[index.value].IsOpened()
  {
    var i := 0;
    while i < |b.cells|
      invariant 0 <= i <= |b.cells|
      invariant forall j :: 0 <= j < i ==> !b.cells[j].IsClosed()
    {
      if b.cells[i].IsClosed() {
        r := OpenCell(b, i);
        index := Some(i);
        return;
      }
      i := i + 1;
    }
    r := b;
    index := None;
  }
}
