/** The board of minesweeper/board.go: a grid of cells that is filled with bombs and numbers once,
    then changed only by opening and flagging squares. */
module Boards {
  import opened Cells
  import opened Slices
  import opened Grid

  /** The errors the board's operations return. */
  datatype BoardError = EmptyBoard | EmptyColumn | TooManyBombs | CellFlagged

  /** Go's `error`: `None` is nil. */
  datatype Option<T> = None | Some(value: T)

  class Board {
    /** `cells[x][y]`; the Go slices of cell pointers, held here as values. */
    var cells: CellGrid

    ghost predicate Valid()
      reads this
    {
      Rectangular(cells)
    }

    /** `MakeBoard`: `width` columns of `height` new cells, then `PutBombs` (whose error is
        dropped) and `PutNumbers`. `picks` stands for the values `rand.Intn` returns. */
    constructor (width: int, height: int, bombs: int, picks: seq<Coord>)
      requires forall p :: p in picks ==> 0 <= p.x < width && 0 <= p.y < height
      requires 0 < width && 0 < height && bombs < width * height ==> |set p | p in picks| >= bombs
      ensures Valid()
      ensures |cells| == (if width > 0 then width else 0)
      ensures forall x :: 0 <= x < |cells| ==> |cells[x]| == if height > 0 then height else 0
      ensures AllClosed(cells)
      ensures NumbersConsistent(cells)
      // an invalid bomb count leaves the board without bombs
      ensures |BombSet(cells)| ==
        if 0 < width && 0 < height && 0 < bombs < width * height then bombs else 0
    {
      var g: CellGrid := [];
      for i := 0 to (if width > 0 then width else 0)
        invariant |g| == i
        invariant forall x :: 0 <= x < i ==> g[x] == seq(if height > 0 then height else 0, _ => MakeCell())
      {
        var col: seq<Cell> := [];
        for j := 0 to (if height > 0 then height else 0)
          invariant col == seq(j, _ => MakeCell())
        {
          col := col + [MakeCell()];
        }
        g := g + [col];
      }
      cells := g;
      new;
      assert AllClosed(cells);
      assert BombSet(cells) == {};
      assert FreeAmong(cells, picks) == set p | p in picks;
      var _ := PutBombs(bombs, picks);
      PutNumbers();
    }

    /** `GetBoard`: a snapshot of what the player sees of every square. */
    method GetBoard() returns (res: seq<seq<State>>)
      ensures |res| == |cells|
      ensures forall x :: 0 <= x < |cells| ==> |res[x]| == |cells[x]|
      ensures forall x, y | 0 <= x < |cells| && 0 <= y < |cells[x]| :: res[x][y] == GetState(cells[x][y])
      ensures res == View(cells)
    {
      res := [];
      for i := 0 to |cells|
        invariant |res| == i
        invariant forall x :: 0 <= x < i ==> res[x] == View(cells)[x]
      {
        res := res + [[]];
        for j := 0 to |cells[i]|
          invariant |res| == i + 1
          invariant forall x :: 0 <= x < i ==> res[x] == View(cells)[x]
          invariant res[i] == View(cells)[i][..j]
        {
          res := res[i := res[i] + [GetState(cells[i][j])]];
        }
      }
    }

    /** `IsAllOpened`: the win check. The Go code reads `cells[0]`, so the board must have a column. */
    method IsAllOpened() returns (all: bool)
      requires Valid() && |cells| > 0
      ensures all <==> AllOpenedOrFlagged(cells)
    {
      var counter := 0;
      ghost var visited := 0;
      for x := 0 to |cells|
        invariant counter <= visited == x * |cells[0]|
        invariant counter == visited <==>
          forall i, j | 0 <= i < x && 0 <= j < |cells[i]| :: cells[i][j].isOpen || cells[i][j].isFlagged
      {
        for y := 0 to |cells[x]|
          invariant counter <= visited == x * |cells[0]| + y
          invariant counter == visited <==>
            (forall i, j | 0 <= i < x && 0 <= j < |cells[i]| :: cells[i][j].isOpen || cells[i][j].isFlagged) &&
            (forall j | 0 <= j < y :: cells[x][j].isOpen || cells[x][j].isFlagged)
        {
          var c := cells[x][y];
          if c.isFlagged || c.isOpen {
            counter := counter + 1;
          }
          visited := visited + 1;
        }
      }
      all := counter == |cells| * |cells[0]|;
    }

    /** `FlagCellCoord`: `FlagSwitch` on one square; contents, and so bombs and numbers, stay. */
    method FlagCellCoord(c: Coord) returns (s: State)
      requires Valid() && InGrid(cells, c)
      modifies this
      ensures Valid()
      ensures cells == old(cells)[c.x := old(cells)[c.x][c.y := FlagSwitch(old(cells)[c.x][c.y]).cell]]
      ensures s == FlagSwitch(old(cells)[c.x][c.y]).result
      ensures BombSet(cells) == BombSet(old(cells))
      ensures NumbersConsistent(old(cells)) ==> NumbersConsistent(cells)
    {
      var t := FlagSwitch(cells[c.x][c.y]);
      cells := cells[c.x := cells[c.x][c.y := t.cell]];
      s := t.result;
      ContentsDetermineNumbers(old(cells), cells);
    }

    /** `OpenCellCoord`: `OpenCell` at a coordinate pair. */
    method OpenCellCoord(c: Coord) returns (s: State, err: Option<BoardError>)
      requires Valid() && InGrid(cells, c)
      modifies this
      ensures Valid() && SameContents(old(cells), cells)
      ensures BombSet(cells) == BombSet(old(cells))
      ensures NumbersConsistent(old(cells)) ==> NumbersConsistent(cells)
      ensures old(cells)[c.x][c.y].isFlagged ==> s == StateEmpty && err == Some(CellFlagged) && cells == old(cells)
      ensures !old(cells)[c.x][c.y].isFlagged ==> s == old(cells)[c.x][c.y].state && err == None
      ensures forall i, j | 0 <= i < |cells| && 0 <= j < |cells[i]| ::
        cells[i][j].isFlagged == old(cells)[i][j].isFlagged &&
        cells[i][j].isOpen == (old(cells)[i][j].isOpen ||
          (!old(cells)[c.x][c.y].isFlagged && Revealed(old(cells), c, Coord(i, j))))
    {
      s, err := OpenCell(c.x, c.y);
    }

    /** `OpenCell`: refuse a flagged square, returning the zero State with the error; on an Empty square first collect the Empty squares
        connected to it (`blankCells`), open them, then open every Number square next to one of
        them; finally open the square itself and return its content. */
    method OpenCell(x: int, y: int) returns (s: State, err: Option<BoardError>)
      requires Valid() && InGrid(cells, Coord(x, y))
      modifies this
      ensures Valid() && SameContents(old(cells), cells)
      ensures BombSet(cells) == BombSet(old(cells))
      ensures NumbersConsistent(old(cells)) ==> NumbersConsistent(cells)
      // a flagged square gives the zero State (`StateEmpty`) together with the error
      ensures old(cells)[x][y].isFlagged ==> s == StateEmpty && err == Some(CellFlagged) && cells == old(cells)
      ensures !old(cells)[x][y].isFlagged ==> s == old(cells)[x][y].state && err == None
      // flags stay; a square is open afterwards iff it was, or the click reveals it
      ensures forall i, j | 0 <= i < |cells| && 0 <= j < |cells[i]| ::
        cells[i][j].isFlagged == old(cells)[i][j].isFlagged &&
        cells[i][j].isOpen == (old(cells)[i][j].isOpen ||
          (!old(cells)[x][y].isFlagged && Revealed(old(cells), Coord(x, y), Coord(i, j))))
    {
      var c := cells[x][y];
      if c.isFlagged {
        return StateEmpty, Some(CellFlagged);
      }
      ghost var g := cells;
      var t := Coord(x, y);
      ghost var shown: set<Coord> := {};
      if c.state == StateEmpty {
        var blankCells := CollectBlanks(t);
        var numbers := OpenBlanks(blankCells);
        ghost var h := cells;
        forall q | q in numbers ensures InGrid(cells, q) {
          NumbersAroundMembers(g, blankCells, q);
        }
        assert Valid();
        OpenAll(numbers);
        OpenedThenOpened(g, h, cells, Elems(blankCells), Elems(numbers));
        shown := Elems(blankCells) + Elems(numbers);
        RevealedByFlood(g, t, blankCells, numbers);
      }
      var last := Open(cells[x][y]);
      OpenOneMore(g, cells, shown, t);
      cells := cells[x := cells[x][y := last.cell]];
      shown := shown + {t};
      assert forall q :: q in shown <==> Revealed(g, t, q);
      OpenedAsRevealed(g, cells, t, shown);
      ContentsDetermineNumbers(g, cells);
      s, err := last.result, None;
    }

    /** The second loop of `OpenCell`: open the squares of `blankCells` one by one, and after each
        append the Number squares among its neighbours to `numbers`. */
    method OpenBlanks(blankCells: seq<Coord>) returns (numbers: seq<Coord>)
      requires Valid() && forall k :: 0 <= k < |blankCells| ==> InGrid(cells, blankCells[k])
      modifies this
      ensures OpenedExactly(old(cells), cells, Elems(blankCells))
      ensures numbers == NumbersAround(old(cells), blankCells)
    {
      ghost var g := cells;
      numbers := [];
      for k := 0 to |blankCells|
        invariant OpenedExactly(g, cells, Elems(blankCells[..k]))
        invariant numbers == NumbersAround(g, blankCells[..k])
      {
        var bl := blankCells[k];
        OpenOneMore(g, cells, Elems(blankCells[..k]), bl);
        ElemsPrefixStep(blankCells, k);
        cells := cells[bl.x := cells[bl.x][bl.y := Open(cells[bl.x][bl.y]).cell]];
        assert blankCells[..k + 1][..k] == blankCells[..k];
        var nbrs := Neighbours(cells, bl);
        SameShapeNeighbours(g, cells, bl);
        NeighboursSpec(g, bl);
        var found := NumbersAmong(nbrs);
        NumbersSameContents(g, cells, nbrs);
        numbers := numbers + found;
      }
      assert blankCells[..|blankCells|] == blankCells;
    }

    /** The inner loop of the second loop of `OpenCell`: the Number squares of `nbrs`, in order. */
    method NumbersAmong(nbrs: seq<Coord>) returns (found: seq<Coord>)
      requires forall q :: q in nbrs ==> InGrid(cells, q)
      ensures forall q :: q in found <==> q in nbrs && IsNumberAt(cells, q)
      ensures found == Numbers(cells, nbrs)
    {
      found := [];
      for m := 0 to |nbrs|
        invariant found == Numbers(cells, nbrs[..m])
      {
        var nbr := nbrs[m];
        assert nbr in nbrs && nbrs[..m + 1] == nbrs[..m] + [nbr];
        if cells[nbr.x][nbr.y].state > StateEmpty {
          found := found + [nbr];
        }
      }
      assert nbrs[..|nbrs|] == nbrs;
      forall q ensures q in found <==> q in nbrs && IsNumberAt(cells, q) {
        NumbersMembers(cells, nbrs, q);
      }
    }

    /** The third loop of `OpenCell`: open every square of `squares`. */
    method OpenAll(squares: seq<Coord>)
      requires Valid() && forall q :: q in squares ==> InGrid(cells, q)
      modifies this
      ensures OpenedExactly(old(cells), cells, Elems(squares))
    {
      ghost var g := cells;
      for k := 0 to |squares|
        invariant OpenedExactly(g, cells, Elems(squares[..k]))
      {
        var n := squares[k];
        assert n in squares;
        OpenOneMore(g, cells, Elems(squares[..k]), n);
        ElemsPrefixStep(squares, k);
        cells := cells[n.x := cells[n.x][n.y := Open(cells[n.x][n.y]).cell]];
      }
      assert squares[..|squares|] == squares;
    }

    /** The first loop of `OpenCell`: starting from the Empty square `t`, repeatedly append the
        Empty neighbours of `blankCells[i]` that are not yet in `blankCells`. */
    method CollectBlanks(t: Coord) returns (blankCells: seq<Coord>)
      requires Valid() && IsEmptyAt(cells, t)
      ensures |blankCells| > 0 && blankCells[0] == t
      ensures NoDup(blankCells)
      ensures forall k :: 0 <= k < |blankCells| ==> IsEmptyAt(cells, blankCells[k])
      ensures forall q :: q in blankCells <==> InEmptyRegion(cells, t, q)
    {
      blankCells := [t];
      RegionStart(cells, t);
      var i := 0;
      while true
        invariant 0 <= i < |blankCells| && blankCells[0] == t
        invariant NoDup(blankCells)
        invariant forall k :: 0 <= k < |blankCells| ==> IsEmptyAt(cells, blankCells[k])
        invariant forall k :: 0 <= k < |blankCells| ==> InEmptyRegion(cells, t, blankCells[k])
        invariant ScannedUpTo(cells, blankCells, i)
        decreases AllCoords(cells) - Elems(blankCells), |blankCells| - i
      {
        var g := cells;
        var n := Neighbours(cells, blankCells[i]);
        NeighboursSpec(cells, blankCells[i]);
        FilterNoDup(n, q => IsEmptyAt(g, q));
        n := Filter(n, q => IsEmptyAt(g, q));
        var seen := blankCells;
        FilterNoDup(n, q => Contains(seen, q) < 0);
        n := Filter(n, q => Contains(seen, q) < 0);
        AppendFresh(cells, t, seen, n, i);
        ScanStep(cells, seen, n, i);
        blankCells := blankCells + n;
        if i == |blankCells| - 1 {
          break;
        }
        i := i + 1;
      }
      forall q | InEmptyRegion(cells, t, q) ensures q in blankCells {
        ClosedUnderEmptyNeighbours(cells, blankCells);
        RegionWithinClosedSet(cells, t, Elems(blankCells), q);
      }
    }

    /** `PutBombs`: check the board and the count, then put `count` bombs, each on the first square
        among the remaining `picks` that holds no bomb yet. `picks` stands for the successive
        values of `rand.Intn(rows)`, `rand.Intn(cols)`; the retry loop ends because among them
        there are enough free squares. */
    method PutBombs(count: int, picks: seq<Coord>) returns (err: Option<BoardError>)
      requires Valid()
      requires forall p :: p in picks ==> InGrid(cells, p)
      requires 0 < count < |cells| * Height(cells) ==> |FreeAmong(cells, picks)| >= count
      modifies this
      ensures Valid() && SameShape(old(cells), cells)
      ensures |old(cells)| == 0 ==> err == Some(EmptyBoard)
      ensures |old(cells)| > 0 && |old(cells)[0]| == 0 ==> err == Some(EmptyColumn)
      ensures |old(cells)| > 0 && |old(cells)[0]| > 0 && count >= |old(cells)| * |old(cells)[0]| ==>
        err == Some(TooManyBombs)
      ensures |old(cells)| > 0 && |old(cells)[0]| > 0 && count < |old(cells)| * |old(cells)[0]| ==> err == None
      ensures err.Some? ==> cells == old(cells)
      // on success exactly `count` more squares hold a bomb, all of them picked, and nothing else changed
      ensures err.None? ==> BombSet(old(cells)) <= BombSet(cells)
      ensures err.None? ==> |BombSet(cells)| == |BombSet(old(cells))| + if count > 0 then count else 0
      ensures err.None? ==> forall p :: p in BombSet(cells) - BombSet(old(cells)) ==> p in picks
      ensures forall x, y | 0 <= x < |cells| && 0 <= y < |cells[x]| ::
        cells[x][y] == old(cells)[x][y] || cells[x][y] == old(cells)[x][y].(state := StateBomb)
      ensures AllClosed(old(cells)) ==> AllClosed(cells)
    {
      var rows := |cells|;
      if rows == 0 {
        return Some(EmptyBoard);
      }
      var cols := |cells[0]|;
      if cols == 0 {
        return Some(EmptyColumn);
      }
      if count >= rows * cols {
        return Some(TooManyBombs);
      }
      var k := 0;
      for i := 0 to (if count > 0 then count else 0)
        invariant 0 <= k <= |picks|
        invariant Valid() && OnlyBombsAdded(old(cells), cells)
        invariant forall p :: p in picks ==> InGrid(cells, p)
        invariant BombSet(old(cells)) <= BombSet(cells)
        invariant |BombSet(cells)| == |BombSet(old(cells))| + i
        invariant forall p :: p in BombSet(cells) - BombSet(old(cells)) ==> p in picks
        invariant |FreeAmong(cells, picks[k..])| >= count - i
      {
        ghost var before := cells;
        k := PlaceOne(picks, k);
        AddBombKeeps(old(cells), before, picks[k - 1]);
        PlaceBombEffect(before, picks[k - 1], picks);
      }
      return None;
    }

    /** One pass of `PutBombs`' outer loop: the retry loop draws picks from `k0` on until one lands
        on a square with no bomb, and puts a bomb there. */
    method PlaceOne(picks: seq<Coord>, k0: nat) returns (k: nat)
      requires Valid() && k0 <= |picks|
      requires forall p :: p in picks ==> InGrid(cells, p)
      requires |FreeAmong(cells, picks[k0..])| > 0
      modifies this
      ensures k0 < k <= |picks|
      ensures InGrid(old(cells), picks[k - 1]) && At(old(cells), picks[k - 1]).state != StateBomb
      ensures cells == WithBomb(old(cells), picks[k - 1])
      ensures |FreeAmong(cells, picks[k..])| == |FreeAmong(old(cells), picks[k0..])| - 1
      // the picks drawn before it all landed on bombs
      ensures forall m :: k0 <= m < k - 1 ==> IsBombAt(old(cells), picks[m])
    {
      ghost var g := cells;
      k := k0;
      while true
        invariant k0 <= k <= |picks| && cells == g
        invariant FreeAmong(g, picks[k..]) == FreeAmong(g, picks[k0..])
        invariant AllBombs(g, picks, k0, k)
        decreases |picks| - k
      {
        if k == |picks| {
          NoFreeAtEnd(g, picks);
          assert false;
        }
        var p := picks[k];
        assert p in picks;
        k := k + 1;
        var c := cells[p.x][p.y];
        if c.state != StateBomb {
          cells := cells[p.x := cells[p.x][p.y := c.(state := StateBomb)]];
          FirstFreePick(g, picks, k0, k);
          return;
        }
        PickStep(g, picks, k - 1);
        assert IsBombAt(g, p);
      }
    }

    /** `PutNumbers`: give every non-bomb square the number of bombs among its neighbours. */
    method PutNumbers()
      requires Valid()
      modifies this
      ensures Valid() && SameShape(old(cells), cells)
      ensures forall x, y | 0 <= x < |cells| && 0 <= y < |cells[x]| ::
        cells[x][y] == if old(cells)[x][y].state == StateBomb then old(cells)[x][y]
                       else old(cells)[x][y].(state := NeighbourBombs(old(cells), Coord(x, y)))
      ensures NumbersConsistent(cells)
      ensures BombSet(cells) == BombSet(old(cells))
      ensures AllClosed(old(cells)) ==> AllClosed(cells)
    {
      ghost var g := cells;
      var maxX := |cells| - 1;
      for x := 0 to maxX + 1
        invariant Valid() && NumberedUpTo(g, cells, x, 0)
      {
        var maxY := |cells[x]| - 1;
        for y := 0 to maxY + 1
          invariant Valid() && NumberedUpTo(g, cells, x, y)
        {
          var cell := cells[x][y];
          NumberedKeepsBombs(g, cells, x, y);
          if cell.state != StateBomb {
            var n, _ := GetNumberForCell(x, y, maxX, maxY);
            WiredCountIsNumber(cells, Coord(x, y), maxX, maxY, n);
            SameBombsSameNumber(g, cells, Coord(x, y));
            NumberedStep(g, cells, x, y, n);
            cells := cells[x := cells[x][y := cell.(state := n)]];
          } else {
            NumberedStep(g, cells, x, y, cell.state);
          }
        }
        NumberedNextColumn(g, cells, x);
      }
      NumbersAfterNumbering(g, cells);
    }

    /** `GetNumberForCell`: count the bombs on the in-range squares around (x, y); the Go code also
        appends each such square to the cell's neighbour list, returned here as `neighbours`. */
    method GetNumberForCell(x: int, y: int, maxX: int, maxY: int) returns (n: State, neighbours: seq<Coord>)
      requires Valid() && InGrid(cells, Coord(x, y))
      requires maxX < |cells| && maxY < Height(cells)
      ensures neighbours == NeighbourCoords(x, y, maxX, maxY)
      ensures n == CountBombs(cells, neighbours)
      ensures 0 <= n <= 8
    {
      var bombsCount := 0;
      neighbours := [];
      for dx := -1 to 2
        invariant neighbours == NeighboursBefore(x, y, maxX, maxY, x + dx, y - 1)
        invariant bombsCount == CountBombs(cells, neighbours)
      {
        bombsCount, neighbours := CountColumn(x, y, maxX, maxY, dx, bombsCount, neighbours);
      }
      NeighbourCoordsSpec(x, y, maxX, maxY);
      n := bombsCount;
    }

    /** The inner `dy` loop of `GetNumberForCell`, for column x + dx. */
    method CountColumn(x: int, y: int, maxX: int, maxY: int, dx: int, bombsBefore: int, before: seq<Coord>)
      returns (bombsCount: int, neighbours: seq<Coord>)
      requires Valid() && maxX < |cells| && maxY < Height(cells) && -1 <= dx <= 1
      requires before == NeighboursBefore(x, y, maxX, maxY, x + dx, y - 1)
      requires bombsBefore == CountBombs(cells, before)
      ensures neighbours == NeighboursBefore(x, y, maxX, maxY, x + dx + 1, y - 1)
      ensures bombsCount == CountBombs(cells, neighbours)
    {
      bombsCount, neighbours := bombsBefore, before;
      for dy := -1 to 2
        invariant neighbours == NeighboursBefore(x, y, maxX, maxY, x + dx, y + dy)
        invariant bombsCount == CountBombs(cells, neighbours)
      {
        var i := x + dx;
        var j := y + dy;
        // the Go loop `continue`s past the cell itself and past out-of-range squares
        if !(dx == 0 && dy == 0) && !IsInvalidIndex(i, j, maxX, maxY) {
          NeighboursBeforeKeep(x, y, maxX, maxY, i, j);
          assert InGrid(cells, Coord(i, j));
          CountBombsAppend(cells, neighbours, Coord(i, j));
          if cells[i][j].state == StateBomb {
            bombsCount := bombsCount + 1;
          }
          neighbours := neighbours + [Coord(i, j)];
        } else {
          NeighboursBeforeSkip(x, y, maxX, maxY, i, j);
        }
      }
      NeighboursBeforeNextColumn(x, y, maxX, maxY, x + dx);
    }

    /** `GetAdjacentBlanks`: the Empty squares in range that share a side with (x, y), visited in
        the same `dx`, `dy` order as `GetNumberForCell`. The board never calls it. */
    method GetAdjacentBlanks(x: int, y: int, maxX: int, maxY: int) returns (result: seq<Coord>)
      requires Valid() && maxX < |cells| && maxY < Height(cells)
      ensures result == AdjacentBlanks(cells, x, y, maxX, maxY)
      ensures forall q :: q in result <==>
        0 <= q.x <= maxX && 0 <= q.y <= maxY && IsEmptyAt(cells, q) && SideAdjacent(q, Coord(x, y))
      ensures NoDup(result)
    {
      result := [];
      for dx := -1 to 2
        invariant result == BlanksBefore(cells, x, y, maxX, maxY, x + dx, y - 1)
      {
        for dy := -1 to 2
          invariant result == BlanksBefore(cells, x, y, maxX, maxY, x + dx, y + dy)
        {
          var i := x + dx;
          var j := y + dy;
          // the Go loop `continue`s past the cell itself, diagonal squares and out-of-range squares
          if !((dx == 0 && dy == 0) || dx * dy != 0) && !IsInvalidIndex(i, j, maxX, maxY) {
            assert InGrid(cells, Coord(i, j));
            if cells[i][j].state == StateEmpty {
              BlanksBeforeKeep(cells, x, y, maxX, maxY, i, j);
              result := result + [Coord(i, j)];
            } else {
              BlanksBeforeSkip(cells, x, y, maxX, maxY, i, j);
            }
          } else {
            BlanksBeforeSkip(cells, x, y, maxX, maxY, i, j);
          }
        }
        BlanksBeforeNextColumn(cells, x, y, maxX, maxY, x + dx);
      }
      AdjacentBlanksSpec(cells, x, y, maxX, maxY);
    }
  }

  /** One pass of the collecting loop keeps its invariants: the appended squares are new, Empty,
      next to `seen[i]`, and so in the component, and `seen[i]` now has all its Empty neighbours in. */
  lemma AppendFresh(g: CellGrid, t: Coord, seen: seq<Coord>, n: seq<Coord>, i: nat)
    requires Rectangular(g) && i < |seen|
    requires NoDup(seen) && NoDup(n)
    requires forall k :: 0 <= k < |seen| ==> IsEmptyAt(g, seen[k])
    requires forall k :: 0 <= k < |seen| ==> InEmptyRegion(g, t, seen[k])
    requires forall q :: q in n <==> (q in Neighbours(g, seen[i]) && IsEmptyAt(g, q)) && Contains(seen, q) < 0
    ensures NoDup(seen + n)
    ensures forall k :: 0 <= k < |seen + n| ==> IsEmptyAt(g, (seen + n)[k])
    ensures forall k :: 0 <= k < |seen + n| ==> InEmptyRegion(g, t, (seen + n)[k])
    ensures forall q :: q in Neighbours(g, seen[i]) && IsEmptyAt(g, q) ==> q in seen + n
    ensures n != [] ==> AllCoords(g) - Elems(seen + n) < AllCoords(g) - Elems(seen)
    ensures n == [] ==> seen + n == seen
  {
    NeighboursSpec(g, seen[i]);
    var s := seen + n;
    forall a, b | 0 <= a < b < |s| ensures s[a] != s[b] {
      if b < |seen| {
        assert s[a] == seen[a] && s[b] == seen[b];
      } else if a < |seen| {
        assert s[b] == n[b - |seen|] && s[a] == seen[a];
        assert s[b] in n && s[a] in seen;
      } else {
        assert s[a] == n[a - |seen|] && s[b] == n[b - |seen|];
      }
    }
    forall k | 0 <= k < |s| ensures IsEmptyAt(g, s[k]) && InEmptyRegion(g, t, s[k]) {
      if k >= |seen| {
        var q := n[k - |seen|];
        assert s[k] == q && q in n;
        RegionStep(g, t, seen[i], q);
      }
    }
    if n != [] {
      var q := n[0];
      assert q in n;
      assert q in AllCoords(g);
      assert q in AllCoords(g) - Elems(seen);
      assert q !in AllCoords(g) - Elems(s);
    }
  }

  /** The first `i` collected squares have been scanned: their Empty neighbours are all collected. */
  ghost predicate ScannedUpTo(g: CellGrid, blank: seq<Coord>, i: nat) {
    i <= |blank| &&
    forall k, q :: 0 <= k < i && q in Neighbours(g, blank[k]) && IsEmptyAt(g, q) ==> q in blank
  }

  /** Scanning `seen[i]` and appending its new Empty neighbours `n` extends the scanned prefix. */
  lemma ScanStep(g: CellGrid, seen: seq<Coord>, n: seq<Coord>, i: nat)
    requires ScannedUpTo(g, seen, i) && i < |seen|
    requires forall q :: q in Neighbours(g, seen[i]) && IsEmptyAt(g, q) ==> q in seen + n
    ensures ScannedUpTo(g, seen + n, i + 1)
  {
    var s := seen + n;
    forall k, q | 0 <= k < i + 1 && q in Neighbours(g, s[k]) && IsEmptyAt(g, q) ensures q in s {
      assert s[k] == seen[k];
      if k < i {
        assert q in seen;
      }
    }
  }

  /** After the collecting loop every Empty square next to a collected one has been collected. */
  lemma ClosedUnderEmptyNeighbours(g: CellGrid, blank: seq<Coord>)
    requires Rectangular(g)
    requires forall k :: 0 <= k < |blank| ==> IsEmptyAt(g, blank[k])
    requires ScannedUpTo(g, blank, |blank|)
    ensures forall p, r :: p in Elems(blank) && IsEmptyAt(g, r) && Adjacent(p, r) ==> r in Elems(blank)
  {
    forall p, r | p in Elems(blank) && IsEmptyAt(g, r) && Adjacent(p, r) ensures r in blank {
      var k :| 0 <= k < |blank| && blank[k] == p;
      NeighboursSpec(g, p);
    }
  }

  /** The squares the flood-fill opens are exactly those `Revealed` names. */
  lemma RevealedByFlood(g: CellGrid, t: Coord, blank: seq<Coord>, numbers: seq<Coord>)
    requires Rectangular(g) && IsEmptyAt(g, t) && t in blank
    requires forall q :: q in blank <==> InEmptyRegion(g, t, q)
    requires numbers == NumbersAround(g, blank)
    ensures forall q :: Revealed(g, t, q) <==> q in Elems(blank) + Elems(numbers)
  {
    forall q ensures Revealed(g, t, q) <==> q in blank || q in numbers {
      NumbersAroundMembers(g, blank, q);
      if q in numbers {
        var m :| 0 <= m < |blank| && q in Neighbours(g, blank[m]);
        NeighboursSpec(g, blank[m]);
        assert InEmptyRegion(g, t, blank[m]) && Adjacent(blank[m], q);
      }
      if OnBorder(g, t, q) {
        var r :| InEmptyRegion(g, t, r) && Adjacent(r, q);
        var m :| 0 <= m < |blank| && blank[m] == r;
        NeighboursSpec(g, r);
      }
    }
  }

  /** What `PutNumbers` leaves behind: bombs untouched, and every other square carrying its count. */
  lemma NumbersAfterNumbering(g: CellGrid, h: CellGrid)
    requires Rectangular(g) && SameShape(g, h)
    requires forall i, j | 0 <= i < |h| && 0 <= j < |h[i]| ::
      h[i][j] == if g[i][j].state == StateBomb then g[i][j] else g[i][j].(state := NeighbourBombs(g, Coord(i, j)))
    ensures NumbersConsistent(h)
    ensures BombSet(h) == BombSet(g)
  {
    forall q ensures IsBombAt(g, q) <==> IsBombAt(h, q) {
      if InGrid(g, q) && g[q.x][q.y].state != StateBomb {
        assert h[q.x][q.y].state == NeighbourBombs(g, q) >= 0;
      }
    }
    forall i, j | 0 <= i < |h| && 0 <= j < |h[i]| && h[i][j].state != StateBomb
      ensures h[i][j].state == NeighbourBombs(h, Coord(i, j))
    {
      SameBombsSameNumber(g, h, Coord(i, j));
    }
    forall q ensures q in BombSet(h) <==> q in BombSet(g) {
      if q in BombSet(h) {
        assert IsBombAt(h, q);
      }
      if q in BombSet(g) {
        assert IsBombAt(g, q);
      }
    }
  }
}
