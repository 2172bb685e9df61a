/** What the solver guarantees at the top level on a board whose flags
    and opened cells agree with the hidden bombs. */
module SolverSoundness {
  import opened Wrappers
  import opened Cells
  import opened Grid
  import opened Boards
  import opened Reveal
  import opened Solver

  /** A top-level board a correct player can reach: not lost, consistent
      counts, no assumption marks, every flag on a bomb and no bomb
      opened. A board fresh from `NewBoard` is one. */
  predicate Sound(b: Board)
  {
    && Valid(b) && !b.failed && CountsConsistent(b)
    && forall j :: 0 <= j < |b.cells| ==>
         && !b.cells[j].isAssumption
         && (b.cells[j].IsFlagged() ==> b.cells[j].hasBomb)
         && (b.cells[j].IsOpened() ==> !b.cells[j].hasBomb)
  }

  /** Counts only depend on where the bombs are. */
  lemma EvolvesKeepsCounts(b: Board, r: Board, level: nat)
    requires CountsConsistent(b) && Evolves(b, r, level)
    ensures CountsConsistent(r)
  {
    forall i | 0 <= i < |r.cells|
      ensures r.cells[i].neighborBombs == BombsAround(r, i)
    {
      CountAtSameKind(b.cells, r.cells, NeighbourIndices(b.width, b.height, i), BombCell);
    }
  }

  /** Around a cell of a board whose flags are bombs and whose opened
      cells are safe, the bombs are the flags plus the Closed bombs. */
  lemma {:induction false} CountAtSplit(cells: seq<Cell>, at: seq<int>)
    requires forall x :: 0 <= x < |at| ==> 0 <= at[x] < |cells|
    requires forall j :: 0 <= j < |cells| ==>
      (cells[j].IsFlagged() ==> cells[j].hasBomb) && (cells[j].IsOpened() ==> !cells[j].hasBomb)
    ensures CountAt(cells, at, BombCell) == CountAt(cells, at, FlaggedCell) + CountAt(cells, at, ClosedBombCell)
    ensures CountAt(cells, at, ClosedBombCell) <= CountAt(cells, at, ClosedCell)
    ensures CountAt(cells, at, ClosedBombCell) == 0 <==>
      forall x :: 0 <= x < |at| && cells[at[x]].IsClosed() ==> !cells[at[x]].hasBomb
    ensures CountAt(cells, at, ClosedBombCell) == CountAt(cells, at, ClosedCell) <==>
      forall x :: 0 <= x < |at| && cells[at[x]].IsClosed() ==> cells[at[x]].hasBomb
  {
    if at != [] {
      CountAtSplit(cells, at[1..]);
      assert forall x :: 0 < x < |at| ==> at[x] == at[1..][x - 1];
    }
  }

  /** Every Closed neighbour of cell `i` holds a bomb exactly when `bomb`. */
  predicate ClosedNeighboursAre(b: Board, i: int, bomb: bool)
    requires Valid(b) && 0 <= i < |b.cells|
  {
    var at := NeighbourIndices(b.width, b.height, i);
    forall x :: 0 <= x < |at| && b.cells[at[x]].IsClosed() ==> b.cells[at[x]].hasBomb == bomb
  }

  /** On a sound board the counts around an opened cell never contradict
      the flags, and a rule fires exactly when it is right: the rest is
      opened when every Closed neighbour is safe, and flagged when every
      Closed neighbour is a bomb. */
  lemma RuleSound(b: Board, i: int)
    requires Sound(b) && 0 <= i < |b.cells|
    ensures RuleAt(b, i) != TooMany
    ensures RuleAt(b, i) == OpenRest <==>
      Firm(b.cells[i]) && ClosedAround(b, i) > 0 && ClosedNeighboursAre(b, i, false)
    ensures RuleAt(b, i) == FlagRest <==>
      Firm(b.cells[i]) && ClosedAround(b, i) > 0 && ClosedNeighboursAre(b, i, true)
  {
    CountAtSplit(b.cells, NeighbourIndices(b.width, b.height, i));
  }

  /** A deduction on a sound board leaves it sound. */
  lemma ApplySound(b: Board, i: int)
    requires Sound(b) && 0 <= i < |b.cells| && RuleAt(b, i) != NoRule
    ensures Apply(b, i, 0).Deduced? && Sound(Apply(b, i, 0).board)
  {
    RuleSound(b, i);
    var at := NeighbourIndices(b.width, b.height, i);
    var r := Apply(b, i, 0).board;
    EvolvesKeepsCounts(b, r, 0);
    if RuleAt(b, i) == FlagRest {
      forall j | 0 <= j < |b.cells| && r.cells[j] != b.cells[j]
        ensures b.cells[j].hasBomb
      {
        assert j in at;
        var x :| 0 <= x < |at| && at[x] == j;
      }
    }
  }

  /** The deduction pass on a sound board never meets a contradiction,
      and what it deduces is sound. */
  lemma DeduceSound(b: Board)
    requires Sound(b)
    ensures !DeduceFrom(b, 0, 0).Contradiction?
    ensures DeduceFrom(b, 0, 0).Deduced? ==> Sound(DeduceFrom(b, 0, 0).board)
  {
    var d := DeduceFrom(b, 0, 0);
    if !d.NoDeduction? {
      var j :| FirstRule(b, 0, j) && d == Apply(b, j, 0);
      ApplySound(b, j);
    }
  }

  /** One top-level step from a sound board ends sound, or with
      "NO LOGIC". */
  lemma NextStepSound(b: Board, onStep: StepCallback)
    requires Sound(b)
    ensures NextStep(b, 0, onStep).Success? ==> Sound(NextStep(b, 0, onStep).value)
    ensures NextStep(b, 0, onStep).Failure? ==> NextStep(b, 0, onStep).error.reason == NoLogic
  {
    DeduceSound(b);
    if DeduceFrom(b, 0, 0).NoDeduction? {
      var s := Speculate(b, 0, onStep, 0);
      if s.Success? {
        var r := s.value;
        EvolvesKeepsCounts(b, r, 0);
        forall j | 0 <= j < |r.cells|
          ensures !r.cells[j].isAssumption
        {
          assert j !in Marks(b);
        }
      }
    }
  }

  /** The solve loop from a sound board only passes through sound
      boards and fails only with "NO LOGIC". */
  lemma {:induction false} SolveLoopSound(b: Board, onStep: StepCallback, step: nat)
    requires Sound(b)
    ensures SolveLoop(b, 0, onStep, step).Success? ==> Sound(SolveLoop(b, 0, onStep, step).value.board)
    ensures SolveLoop(b, 0, onStep, step).Failure? ==> SolveLoop(b, 0, onStep, step).error.reason == NoLogic
    decreases ClosedCount(b)
  {
    NextStepSound(b, onStep);
    var n := NextStep(b, 0, onStep);
    if n.Success? {
      var b1 := n.value;
      if onStep(b1, step, 0) && !Cleared(b1) && !b1.failed {
        SolveLoopSound(b1, onStep, step + 1);
      }
    }
  }

  /** `solve_all` on a sound board: it never meets a contradiction and
      never opens a bomb; it fails only with "NO LOGIC", and it stops
      without solving only when the callback asks it to. */
  lemma SolveAllSound(b: Board, onStep: StepCallback)
    requires Sound(b)
    ensures SolveAll(b, onStep).Failure? ==> SolveAll(b, onStep).error == ReasoningError(NoLogic)
    ensures SolveAll(b, onStep).Success? ==> Sound(SolveAll(b, onStep).value.board)
    ensures SolveAll(b, onStep).Success? && !SolveAll(b, onStep).value.solved ==>
      exists s: nat :: !onStep(SolveAll(b, onStep).value.board, s, 0)
  {
    SolveLoopSound(b, onStep, 0);
  }
}
