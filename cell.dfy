/** One square of the minesweeper grid (cell.go). */
module Cells {

  /** Go's `State` is an int8; every value the game produces lies in -3..8, so a plain int is exact. */
  type State = int

  const StateEmpty: State := 0
  const StateBomb: State := -1
  const StateUnknown: State := -2
  const StateFlagged: State := -3

  /** The values a cell's content can take: a bomb, empty, or a count of adjacent bombs 1..8. */
  predicate IsContent(s: State) {
    s == StateBomb || 0 <= s <= 8
  }

  /** A cell: its hidden content `state` and the two player-visible flags.
      The neighbour pointers of the Go struct are not stored; the board computes them. */
  datatype Cell = Cell(state: State, isOpen: bool, isFlagged: bool)

  /** What an in-place operation on a cell leaves behind: the updated cell and the State it returns. */
  datatype Transition = Transition(cell: Cell, result: State)

  /** `MakeCell`: an empty, closed, unflagged cell. */
  function MakeCell(): (c: Cell)
    ensures c.state == StateEmpty && !c.isOpen && !c.isFlagged
    ensures GetState(c) == StateUnknown
  {
    Cell(StateEmpty, false, false)
  }

  /** `GetState`: what a player may see of the cell. */
  function GetState(c: Cell): (s: State)
    ensures c.isFlagged ==> s == StateFlagged
    ensures !c.isOpen && !c.isFlagged ==> s == StateUnknown
    // the content is shown exactly when the cell is open and not flagged
    ensures IsContent(c.state) ==> (s == c.state <==> c.isOpen && !c.isFlagged)
  {
    if c.isFlagged then StateFlagged
    else if c.isOpen then c.state
    else StateUnknown
  }

  /** `IsOpen`: whether the cell has been revealed. */
  function IsOpen(c: Cell): (b: bool)
    // for an unflagged cell, being open is the same as not looking Unknown
    ensures IsContent(c.state) && !c.isFlagged ==> (b <==> GetState(c) != StateUnknown)
  {
    c.isOpen
  }

  /** `Open`: reveal the cell, whatever its flag, and return its content. */
  function Open(c: Cell): (t: Transition)
    ensures t.cell.isOpen
    ensures t.cell.isFlagged == c.isFlagged && t.cell.state == c.state
    ensures t.result == c.state
  {
    Transition(c.(isOpen := true), c.state)
  }

  /** `FlagSwitch`: on an open cell nothing changes and the content is returned; on a closed cell
      the flag is toggled and `StateFlagged` is returned, also when the flag is being removed. */
  function FlagSwitch(c: Cell): (t: Transition)
    ensures t.cell.isOpen == c.isOpen && t.cell.state == c.state
    ensures c.isOpen ==> t.cell == c && t.result == c.state
    ensures !c.isOpen ==> t.cell.isFlagged == !c.isFlagged && t.result == StateFlagged
  {
    if c.isOpen then Transition(c, c.state)
    else Transition(c.(isFlagged := !c.isFlagged), StateFlagged)
  }

  /** The content of a cell that is closed, or flagged, cannot be observed: two such cells that
      differ only in content look the same. */
  lemma HiddenContentNotObservable(c: Cell, d: Cell)
    requires c.isOpen == d.isOpen && c.isFlagged == d.isFlagged
    requires !c.isOpen || c.isFlagged
    ensures GetState(c) == GetState(d)
  {
  }

  /** Opening twice is the same as opening once. */
  lemma OpenIdempotent(c: Cell)
    ensures Open(Open(c).cell) == Open(c)
  {
  }

  /** Switching the flag twice restores the cell. */
  lemma FlagSwitchTwice(c: Cell)
    ensures FlagSwitch(FlagSwitch(c).cell).cell == c
  {
  }

  /** The result of `FlagSwitch` on a closed cell does not tell whether the flag is now set;
      the observable state does: it alternates between Flagged and Unknown. */
  lemma FlagSwitchObservedState(c: Cell)
    requires !c.isOpen
    ensures FlagSwitch(c).result == StateFlagged
    ensures GetState(FlagSwitch(c).cell) == if c.isFlagged then StateUnknown else StateFlagged
  {
  }
}
