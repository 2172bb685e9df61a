/** A single slot of the Minesweeper grid (class `Cell` of board.h). */
module Cells {

  datatype CellState = Opened | Closed | Flagged

  /** `isAssumption` marks a cell whose state was set by an unconfirmed
      guess of the solver; the solver reads and writes it although the
      header's `Cell` does not declare it. */
  datatype Cell = Cell(hasBomb: bool, state: CellState, neighborBombs: nat, isAssumption: bool)
  {
    predicate IsOpened() { state == Opened }
    predicate IsClosed() { state == Closed }
    predicate IsFlagged() { state == Flagged }
  }

  /** `Cell(has_bomb, state = Closed)`: no neighbour bombs counted yet, no guess. */
  function NewCell(hasBomb: bool, state: CellState := Closed): (c: Cell)
    ensures c.hasBomb == hasBomb && c.state == state
    ensures c.neighborBombs == 0 && !c.isAssumption
  {
    Cell(hasBomb, state, 0, false)
  }

  /** The three state predicates partition the cells. */
  lemma ExactlyOneState(c: Cell)
    ensures c.IsOpened() || c.IsClosed() || c.IsFlagged()
    ensures !(c.IsOpened() && c.IsClosed())
    ensures !(c.IsOpened() && c.IsFlagged())
    ensures !(c.IsClosed() && c.IsFlagged())
  {
  }
}
