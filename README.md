# Minesweeper board and cell, modelled in Dafny

This project models the game logic of a console Minesweeper written in Go. Two files are covered:

- `cell.go`: one square of the grid. It holds a content `state` (Bomb = -1, Empty = 0, or a count 1..8) and the two player-visible flags `isOpen` and `isFlagged`. `GetState` gives what a player may see; `Open` and `FlagSwitch` are the two in-place transitions.
- `minesweeper/board.go`: the board. It is a `width` x `height` grid addressed `cells[x][y]`.
  - `MakeBoard` builds the board: it places bombs (`PutBombs`) and gives every other square the number of bombs around it (`PutNumbers` / `GetNumberForCell`).
  - `OpenCell` refuses a flagged square. On an Empty square it floods the connected Empty region and its Number border.
  - `FlagCellCoord` toggles a flag, `GetBoard` snapshots what the player sees, and `IsAllOpened` is the win check.
  - The small helpers are `isInvalidIndex`, `GetAdjacentBlanks`, `contains` and `filter`.

Layout:

- `cell.dfy`, module `Cells`: the `Cell` datatype and its operations. `Open` and `FlagSwitch` return a `Transition`: the updated cell and the `State` the Go method returns.
- `slices.dfy`, module `Slices`: the generic `contains` and `filter`.
- `grid.dfy`, module `Grid`: the grid as a value (`seq<seq<Cell>>`) and the specification functions the board is proved against:
  - the neighbour list, in the order the Go loops build it;
  - neighbour bomb counts;
  - the Empty component of a square and what a click reveals (`Revealed`);
  - the player's view;
  - the lemmas about all of these.
- `board.dfy`, module `Boards`: the `Board` class.
  - Its field `cells` is reassigned by the methods that change the board.
  - Every loop of the Go code is a loop here. Each method is proved against the functions of `Grid`.

The random bomb positions are an input: `picks` is the sequence of coordinates `rand.Intn` would return, consumed in order.

The Go cells point to their neighbours. Here the neighbour list of (x, y) is computed (`Grid.Neighbours`), visiting the squares in the order `GetNumberForCell` appends them. The flood fill reads neighbour lists only of Empty squares, and only non-bomb squares get a list. So a computed list is what the code reads.

A bounds check, and the rejection of a bad bomb count, would be expected from a board like this one. The model follows the code instead:
- Bounds are not checked: an out-of-range coordinate is a precondition, since the Go code indexes unchecked and panics.
- `MakeBoard` ignores an invalid bomb count: the board is then built without bombs, not rejected.

## Model

| member | source | states |
|---|---|---|
| Cells.MakeCell | cell.go:24-31 | a new cell is Empty, closed and unflagged, so a player sees it as Unknown |
| Cells.GetState | cell.go:33-42 | a flagged cell shows Flagged; a closed unflagged cell shows Unknown; a cell's content is shown exactly when it is open and unflagged |
| Cells.IsOpen | cell.go:44-46 | for an unflagged cell, being open is the same as not showing Unknown |
| Cells.Open | cell.go:48-51 | the cell becomes open, its flag and content stay, and the content is returned |
| Cells.FlagSwitch | cell.go:53-59 | an open cell is unchanged and its content is returned; a closed cell has its flag toggled and Flagged is returned; open state and content never change |
| Cells.HiddenContentNotObservable | cell.go:33-42 | two closed or flagged cells that differ only in content are observed alike |
| Cells.OpenIdempotent | cell.go:48-51 | opening twice equals opening once, in the cell and in the returned content |
| Cells.FlagSwitchTwice | cell.go:53-59 | switching the flag twice restores the cell |
| Cells.FlagSwitchObservedState | cell.go:57-58 | on a closed cell the result is Flagged even when the flag is removed, while the observed state alternates between Flagged and Unknown |
| Slices.Contains | minesweeper/board.go:223-230 | the result is -1 exactly when the value is absent, else the index of its first occurrence |
| Slices.Filter | minesweeper/board.go:232-240 | the result holds exactly the elements satisfying the predicate and is no longer than the input |
| Slices.FilterConcat | minesweeper/board.go:232-240 | filtering distributes over concatenation, so the kept elements stay in their original order |
| Slices.FilterNoDup | minesweeper/board.go:232-240 | filtering a list without duplicates gives a list without duplicates |
| Grid.IsInvalidIndex | minesweeper/board.go:219-221 | true iff the coordinate lies outside [0, maxX] x [0, maxY] |
| Grid.NeighbourCoordsSpec | minesweeper/board.go:169-193 | the list the loops build holds exactly the in-range squares around (x, y), excluding (x, y) itself, each once, and at most eight |
| Grid.NeighboursSpec | minesweeper/board.go:154-167 | on a rectangular grid a square's neighbour list holds exactly its in-grid surrounding squares, each once |
| Grid.NumberIsAdjacentBombCount | minesweeper/board.go:169-193 | the count along the neighbour list equals the size of the set of bomb squares around the square, and is at most eight |
| Grid.CountBombsIsSetSize | minesweeper/board.go:184-186 | counting bombs along a duplicate-free list gives the number of distinct bomb squares in it |
| Grid.ContentsDetermineNumbers | minesweeper/board.go:57-59 | two grids with the same contents have the same bombs, and one carries consistent numbers iff the other does, so opening and flagging cannot disturb them |
| Grid.PlaceBombEffect | minesweeper/board.go:143-146 | a bomb put on a free square adds exactly that square to the bombs and removes it from the free squares |
| Grid.PickStep | minesweeper/board.go:140-148 | a pick on a bomb leaves the free squares among the remaining picks as they were; a pick on a free square adds it to the bombs |
| Grid.RegionWithinClosedSet | minesweeper/board.go:76-94 | a set holding the start square and every Empty square next to a member contains the whole Empty component |
| Grid.RegionIsEmpty | minesweeper/board.go:71-94 | every square of an Empty component is Empty |
| Grid.FloodNeverRevealsBomb | minesweeper/board.go:71-111 | every square a click reveals, other than the clicked square, is in the grid and holds no bomb |
| Grid.NumbersAroundMembers | minesweeper/board.go:96-105 | the gathered squares are exactly the Number squares next to some collected blank square |
| Grid.AdjacentBlanksSpec | minesweeper/board.go:195-217 | the result holds exactly the in-range Empty squares sharing a side with (x, y), each once |
| Grid.ViewHidesClosedContent | minesweeper/board.go:33-43 | boards that agree on open and flag states, and on contents where a square is shown, give the same snapshot |
| Boards.Board.constructor | minesweeper/board.go:14-27 | the board has the requested shape; all squares are closed and unflagged; every non-bomb square carries its bomb count; there are `bombs` bombs when the count is valid and none otherwise |
| Boards.Board.GetBoard | minesweeper/board.go:33-43 | the snapshot has the grid's dimensions, and entry [x][y] is `GetState` of cell [x][y] |
| Boards.Board.IsAllOpened | minesweeper/board.go:45-55 | true iff every square is open or flagged |
| Boards.Board.FlagCellCoord | minesweeper/board.go:57-59 | only the addressed cell changes, by `FlagSwitch`, whose result is returned; bombs and the consistency of numbers are kept |
| Boards.Board.OpenCellCoord | minesweeper/board.go:61-63 | as `OpenCell` at the coordinate |
| Boards.Board.OpenCell | minesweeper/board.go:65-112 | a flagged square gives the "cell is flagged" error with the zero State (`StateEmpty`) and changes nothing; otherwise the square's content is returned with no error; contents and flags stay, so the bombs stay and consistent numbers stay consistent; a square is open afterwards iff it was open before or the click reveals it (the clicked square, and for an Empty square its Empty component plus that component's Number border) |
| Boards.Board.CollectBlanks | minesweeper/board.go:71-94 | the worklist starts with the clicked square, holds no duplicates, and holds exactly the squares of its Empty component |
| Boards.Board.OpenBlanks | minesweeper/board.go:96-105 | exactly the collected squares are opened, and the gathered list is the Number squares around them in the loops' order |
| Boards.Board.NumbersAmong | minesweeper/board.go:100-104 | the kept squares are exactly the Number squares of the neighbour list, in order |
| Boards.Board.OpenAll | minesweeper/board.go:106-108 | exactly the listed squares are opened, and nothing else changes |
| Boards.Board.PutBombs | minesweeper/board.go:123-152 | an empty board, an empty column or too many bombs gives its error and changes nothing; otherwise exactly `count` new bombs, all on picked squares, and nothing else changes |
| Boards.Board.PlaceOne | minesweeper/board.go:140-148 | the retry loop puts one bomb, on the first remaining pick that had none (every pick drawn before it held a bomb), and uses up one free pick |
| Grid.CountCheckIgnoresPlacedBombs | minesweeper/board.go:134-148 | a board already holding bombs can pass the count check while fewer free squares remain than bombs asked for, so no sequence of picks lets the retry loop finish |
| Boards.Board.PutNumbers | minesweeper/board.go:154-167 | bomb squares stay as they were; every other square gets the number of bombs around it; the bombs are unchanged and the numbers consistent |
| Boards.Board.GetNumberForCell | minesweeper/board.go:169-193 | the returned list is the square's neighbour list, and the count is the number of bombs on it, between 0 and 8 |
| Boards.Board.CountColumn | minesweeper/board.go:172-189 | one column of offsets extends the neighbour list and its bomb count by that column's in-range squares |
| Boards.Board.GetAdjacentBlanks | minesweeper/board.go:195-217 | the result holds exactly the in-range Empty squares sharing a side with (x, y), without duplicates, in the loops' order |
| Boards.AppendFresh | minesweeper/board.go:78-87 | appending the filtered neighbours keeps the worklist duplicate-free, Empty and inside the component, and shrinks the set of uncollected squares when anything is appended |
| Boards.ClosedUnderEmptyNeighbours | minesweeper/board.go:89-91 | when the worklist loop stops, every Empty square next to a collected square has been collected |
| Boards.RevealedByFlood | minesweeper/board.go:71-108 | the squares the flood opens are exactly the Empty component of the click plus its Number border |
| Boards.NumbersAfterNumbering | minesweeper/board.go:154-167 | after numbering, the numbers are consistent with the bombs, and the bombs are the same as before |

## Left out

- `Cell.Draw`, `Board.Draw`, `main.go` and the console client are terminal rendering and input parsing only. Their coordinate order (y from the first number, x from the second) belongs to the interface.
- `GetCells` hands out a pointer to the grid, and callers can write through it; the model keeps the grid private to the class and has no aliasing.
- The Go cells store pointers to their neighbours. The model computes the same list when it is needed, so two source behaviours are outside it:
  - a second `GetNumberForCell` on one cell would append the neighbours again;
  - bomb cells never get a list.
- Boards.Board.GetNumberForCell: returns the list it would append instead of storing it in the cell.
- `rand.Seed` and `rand.Intn` are replaced by the input `picks`.
- Boards.Board.PutBombs: requires enough free squares among `picks` for the count. On a board without bombs, which is how `MakeBoard` calls it, this stands for the random retry eventually succeeding. The check at minesweeper/board.go:134 compares the count with the number of squares, not with the free squares. So a second `PutBombs` on a board that already holds bombs can pass the check and then retry forever (minesweeper/board.go:140-148). `Grid.CountCheckIgnoresPlacedBombs` exhibits such a board. A Dafny method must terminate, so the requires excludes that input, and the endless loop is not modelled.
- `State` is an `int8` in Go. Every value the game produces lies in -3..8, so the model uses `int` and no wrap-around can occur.
- The board is rectangular: `Valid()` holds for every board `MakeBoard` builds, and the methods require it. Ragged grids, which the Go type allows, are not modelled.
- Out-of-range coordinates: the Go code panics on them. The model requires in-range coordinates instead of modelling the panic.
- Boards.Board.IsAllOpened: requires a board with at least one column, because the Go code reads `cells[0]`.
- `MakeBoard` discards the error of `PutBombs`. The model's constructor does the same and states the resulting board, which has no bombs.
- Flagged squares inside a flooded region are opened and stay flagged, as in the code. `OpenCell`'s contract states this: flags are unchanged and `Revealed` ignores them.
- `GetAdjacentBlanks` is modelled, although nothing on the board calls it.
- The file that defines `Coord` is not part of this model; `Coord` is a datatype of two integers here.
