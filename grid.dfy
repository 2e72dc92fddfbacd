/** The value-level view of the board of minesweeper/board.go: coordinates, the 8-neighbourhood,
    bomb counts, the region a flood-fill reveals, and the player's view of the grid. */
module Grid {
  import opened Cells
  import opened Slices

  /** A coordinate pair: `x` indexes the outer slice (columns), `y` the inner one. */
  datatype Coord = Coord(x: int, y: int)

  /** The board's `cells[x][y]`, as values. */
  type CellGrid = seq<seq<Cell>>

  function Height(g: CellGrid): nat {
    if |g| == 0 then 0 else |g[0]|
  }

  /** Every column has the same length; the board is built that way and never resized. */
  predicate Rectangular(g: CellGrid) {
    forall x :: 0 <= x < |g| ==> |g[x]| == Height(g)
  }

  predicate InGrid(g: CellGrid, p: Coord) {
    0 <= p.x < |g| && 0 <= p.y < |g[p.x]|
  }

  function At(g: CellGrid, p: Coord): Cell
    requires InGrid(g, p)
  {
    g[p.x][p.y]
  }

  /** Two grids have the same shape. */
  predicate SameShape(g: CellGrid, h: CellGrid) {
    |g| == |h| && forall x :: 0 <= x < |g| ==> |g[x]| == |h[x]|
  }

  /** `isInvalidIndex`: the coordinate lies outside [0, maxX] x [0, maxY]. */
  function IsInvalidIndex(i: int, j: int, maxX: int, maxY: int): (r: bool)
    ensures r <==> !(0 <= i <= maxX && 0 <= j <= maxY)
  {
    i < 0 || j < 0 || i > maxX || j > maxY
  }

  /** `q` is one of the eight squares around `p`. */
  predicate Adjacent(p: Coord, q: Coord) {
    p != q && -1 <= p.x - q.x <= 1 && -1 <= p.y - q.y <= 1
  }

  // ---------------------------------------------------------------------------------------------
  // The neighbour list of a cell

  /** The neighbours the `dx`, `dy` loops of `GetNumberForCell` have collected when they are about
      to visit square (i, j) = (x + dx, y + dy). Both offsets run from -1 to 1, so (i, y + 2) is the
      end of column i, the same point as (i + 1, y - 1). The visit to (i, j) appends it unless it
      is (x, y) itself or out of range. */
  function NeighboursBefore(x: int, y: int, maxX: int, maxY: int, i: int, j: int): seq<Coord>
    requires x - 1 <= i <= x + 2 && y - 1 <= j <= y + 2 && (i < x + 2 || j == y - 1)
    decreases 4 * (i - x) + (j - y) + 5
  {
    if j > y - 1 then
      var prev := NeighboursBefore(x, y, maxX, maxY, i, j - 1);
      if (i == x && j - 1 == y) || IsInvalidIndex(i, j - 1, maxX, maxY) then prev
      else prev + [Coord(i, j - 1)]
    else if i > x - 1 then NeighboursBefore(x, y, maxX, maxY, i - 1, y + 2)
    else []
  }

  /** A visit to an in-range square other than (x, y) appends it. */
  lemma NeighboursBeforeKeep(x: int, y: int, maxX: int, maxY: int, i: int, j: int)
    requires x - 1 <= i <= x + 1 && y - 1 <= j <= y + 1
    requires !(i == x && j == y) && !IsInvalidIndex(i, j, maxX, maxY)
    ensures NeighboursBefore(x, y, maxX, maxY, i, j + 1) == NeighboursBefore(x, y, maxX, maxY, i, j) + [Coord(i, j)]
  {
  }

  /** A visit to (x, y) itself or to an out-of-range square appends nothing. */
  lemma NeighboursBeforeSkip(x: int, y: int, maxX: int, maxY: int, i: int, j: int)
    requires x - 1 <= i <= x + 1 && y - 1 <= j <= y + 1
    requires (i == x && j == y) || IsInvalidIndex(i, j, maxX, maxY)
    ensures NeighboursBefore(x, y, maxX, maxY, i, j + 1) == NeighboursBefore(x, y, maxX, maxY, i, j)
  {
  }

  /** The end of column i is the start of column i + 1. */
  lemma NeighboursBeforeNextColumn(x: int, y: int, maxX: int, maxY: int, i: int)
    requires x - 1 <= i <= x + 1
    ensures NeighboursBefore(x, y, maxX, maxY, i + 1, y - 1) == NeighboursBefore(x, y, maxX, maxY, i, y + 2)
  {
  }

  /** The neighbour list `GetNumberForCell(x, y, maxX, maxY)` wires to cell (x, y), in its order. */
  function NeighbourCoords(x: int, y: int, maxX: int, maxY: int): seq<Coord> {
    NeighboursBefore(x, y, maxX, maxY, x + 2, y - 1)
  }

  /** The neighbour list of a cell of `g`, as `PutNumbers` has it wired (every column of the
      board has `Height(g)` cells). */
  function Neighbours(g: CellGrid, p: Coord): seq<Coord> {
    NeighbourCoords(p.x, p.y, |g| - 1, Height(g) - 1)
  }

  /** The neighbour list depends on the bounds only through their values. */
  lemma NeighbourCoordsBounds(x: int, y: int, maxX: int, maxY: int, maxX': int, maxY': int)
    requires maxX == maxX' && maxY == maxY'
    ensures NeighbourCoords(x, y, maxX, maxY) == NeighbourCoords(x, y, maxX', maxY')
  {
  }

  /** On a rectangular grid the height is the length of every column. */
  lemma HeightBounds(g: CellGrid, p: Coord)
    requires Rectangular(g) && InGrid(g, p)
    ensures NeighbourCoords(p.x, p.y, |g| - 1, Height(g) - 1) == NeighbourCoords(p.x, p.y, |g| - 1, |g[p.x]| - 1)
  {
    var maxY, maxY' := Height(g) - 1, |g[p.x]| - 1;
    assert maxY == maxY';
    NeighbourCoordsBounds(p.x, p.y, |g| - 1, maxY, |g| - 1, maxY');
  }

  /** On a rectangular grid the neighbour list of (x, y) is the one wired with the bounds
      `PutNumbers` passes: the last column, and the last row of column x. */
  lemma NeighboursWired(g: CellGrid, p: Coord)
    requires Rectangular(g) && InGrid(g, p)
    ensures Neighbours(g, p) == NeighbourCoords(p.x, p.y, |g| - 1, |g[p.x]| - 1)
  {
    HeightBounds(g, p);
    assert Neighbours(g, p) == NeighbourCoords(p.x, p.y, |g| - 1, Height(g) - 1);
  }

  /** The neighbour list depends on the shape of the grid only. */
  lemma SameShapeNeighbours(g: CellGrid, h: CellGrid, p: Coord)
    requires SameShape(g, h)
    ensures Neighbours(g, p) == Neighbours(h, p)
  {
    var maxX, maxX' := |g| - 1, |h| - 1;
    var maxY, maxY' := Height(g) - 1, Height(h) - 1;
    assert maxX == maxX' && maxY == maxY';
    NeighbourCoordsBounds(p.x, p.y, maxX, maxY, maxX', maxY');
  }

  /** The collected squares are the in-range squares around (x, y) that come before (i, j) in the
      loops' order. */
  lemma {:induction false} NeighboursBeforeMembers(x: int, y: int, maxX: int, maxY: int, i: int, j: int, q: Coord)
    requires x - 1 <= i <= x + 2 && y - 1 <= j <= y + 2 && (i < x + 2 || j == y - 1)
    ensures q in NeighboursBefore(x, y, maxX, maxY, i, j) <==>
      !IsInvalidIndex(q.x, q.y, maxX, maxY) && Adjacent(q, Coord(x, y)) && (q.x < i || (q.x == i && q.y < j))
    decreases 4 * (i - x) + (j - y) + 5
  {
    if j > y - 1 {
      NeighboursBeforeMembers(x, y, maxX, maxY, i, j - 1, q);
    } else if i > x - 1 {
      NeighboursBeforeMembers(x, y, maxX, maxY, i - 1, y + 2, q);
    }
  }

  /** Each square is collected once, and there are at most as many as visits made, less the
      visit to the cell itself. */
  lemma {:induction false} NeighboursBeforeNoDup(x: int, y: int, maxX: int, maxY: int, i: int, j: int)
    requires x - 1 <= i <= x + 2 && y - 1 <= j <= y + 2 && (i < x + 2 || j == y - 1)
    ensures NoDup(NeighboursBefore(x, y, maxX, maxY, i, j))
    ensures |NeighboursBefore(x, y, maxX, maxY, i, j)| <=
      var visits := 3 * (i - x + 1) + (j - y + 1);
      if visits > 4 then visits - 1 else visits
    decreases 4 * (i - x) + (j - y) + 5
  {
    if j > y - 1 {
      NeighboursBeforeNoDup(x, y, maxX, maxY, i, j - 1);
      var prev := NeighboursBefore(x, y, maxX, maxY, i, j - 1);
      var s := NeighboursBefore(x, y, maxX, maxY, i, j);
      if s != prev {
        var q := Coord(i, j - 1);
        NeighboursBeforeMembers(x, y, maxX, maxY, i, j - 1, q);
        assert s == prev + [q] && q !in prev;
        forall a, b | 0 <= a < b < |s| ensures s[a] != s[b] {
          if b == |s| - 1 {
            assert s[a] == prev[a] && prev[a] in prev;
          } else {
            assert s[a] == prev[a] && s[b] == prev[b];
          }
        }
      }
    } else if i > x - 1 {
      NeighboursBeforeNoDup(x, y, maxX, maxY, i - 1, y + 2);
    }
  }

  /** The neighbour list holds exactly the in-range squares around (x, y), each once, so at most eight. */
  lemma NeighbourCoordsSpec(x: int, y: int, maxX: int, maxY: int)
    ensures forall q :: q in NeighbourCoords(x, y, maxX, maxY) <==>
      0 <= q.x <= maxX && 0 <= q.y <= maxY && Adjacent(q, Coord(x, y))
    ensures NoDup(NeighbourCoords(x, y, maxX, maxY))
    ensures |NeighbourCoords(x, y, maxX, maxY)| <= 8
  {
    NeighboursBeforeNoDup(x, y, maxX, maxY, x + 2, y - 1);
    forall q ensures q in NeighbourCoords(x, y, maxX, maxY) <==>
      0 <= q.x <= maxX && 0 <= q.y <= maxY && Adjacent(q, Coord(x, y))
    {
      NeighboursBeforeMembers(x, y, maxX, maxY, x + 2, y - 1, q);
    }
  }

  /** On a rectangular grid the neighbour list of a cell is exactly its in-grid surrounding squares. */
  lemma NeighboursSpec(g: CellGrid, p: Coord)
    requires Rectangular(g)
    ensures forall q :: q in Neighbours(g, p) <==> InGrid(g, q) && Adjacent(q, p)
    ensures NoDup(Neighbours(g, p))
    ensures |Neighbours(g, p)| <= 8
  {
    var maxX, maxY := |g| - 1, Height(g) - 1;
    NeighbourCoordsSpec(p.x, p.y, maxX, maxY);
    assert Neighbours(g, p) == NeighbourCoords(p.x, p.y, maxX, maxY);
  }

  // ---------------------------------------------------------------------------------------------
  // Counting bombs

  predicate IsBombAt(g: CellGrid, q: Coord) {
    InGrid(g, q) && At(g, q).state == StateBomb
  }

  /** The number of bomb squares in `s`. */
  function CountBombs(g: CellGrid, s: seq<Coord>): (n: nat)
    ensures n <= |s|
  {
    if |s| == 0 then 0
    else CountBombs(g, s[..|s| - 1]) + if IsBombAt(g, s[|s| - 1]) then 1 else 0
  }

  lemma CountBombsAppend(g: CellGrid, s: seq<Coord>, q: Coord)
    ensures CountBombs(g, s + [q]) == CountBombs(g, s) + if IsBombAt(g, q) then 1 else 0
  {
    assert (s + [q])[..|s|] == s;
  }

  /** The number a non-bomb cell carries: the bombs among its wired neighbours. */
  function NeighbourBombs(g: CellGrid, p: Coord): nat {
    CountBombs(g, Neighbours(g, p))
  }

  /** Counting along the list wired with `PutNumbers`' bounds gives the square's number. */
  lemma WiredCountIsNumber(g: CellGrid, p: Coord, maxX: int, maxY: int, n: int)
    requires Rectangular(g) && InGrid(g, p) && maxX == |g| - 1 && maxY == |g[p.x]| - 1
    requires n == CountBombs(g, NeighbourCoords(p.x, p.y, maxX, maxY))
    ensures n == NeighbourBombs(g, p)
  {
    NeighboursWired(g, p);
  }

  /** The bomb squares around `p`, as a set (a definition independent of the neighbour list). */
  ghost function AdjacentBombs(g: CellGrid, p: Coord): set<Coord> {
    set i, j | p.x - 1 <= i <= p.x + 1 && p.y - 1 <= j <= p.y + 1 &&
      Adjacent(Coord(i, j), p) && IsBombAt(g, Coord(i, j)) :: Coord(i, j)
  }

  /** Counting along a duplicate-free list counts the set of its bomb squares. */
  lemma {:induction false} CountBombsIsSetSize(g: CellGrid, s: seq<Coord>)
    requires NoDup(s)
    ensures CountBombs(g, s) == |set q | q in s && IsBombAt(g, q)|
  {
    if |s| > 0 {
      var init, last := s[..|s| - 1], s[|s| - 1];
      assert s == init + [last];
      assert NoDup(init) by {
        forall i, j | 0 <= i < j < |init| ensures init[i] != init[j] {
          assert init[i] == s[i] && init[j] == s[j];
        }
      }
      assert last !in init by {
        forall i | 0 <= i < |init| ensures init[i] != last {
          assert init[i] == s[i];
        }
      }
      CountBombsIsSetSize(g, init);
      var before := set q | q in init && IsBombAt(g, q);
      var after := set q | q in s && IsBombAt(g, q);
      if IsBombAt(g, last) {
        assert after == before + {last};
      } else {
        assert after == before;
      }
    }
  }

  /** The count a cell is given agrees with the set of bombs around it, and is at most eight. */
  lemma NumberIsAdjacentBombCount(g: CellGrid, p: Coord)
    requires Rectangular(g)
    ensures NeighbourBombs(g, p) == |AdjacentBombs(g, p)|
    ensures NeighbourBombs(g, p) <= 8
  {
    var ns := Neighbours(g, p);
    NeighboursSpec(g, p);
    CountBombsIsSetSize(g, ns);
    var counted := set q | q in ns && IsBombAt(g, q);
    forall q ensures q in counted <==> q in AdjacentBombs(g, p) {
      if q in AdjacentBombs(g, p) {
        assert IsBombAt(g, q) && Adjacent(q, p);
      }
    }
    assert counted == AdjacentBombs(g, p);
  }

  /** Two grids with bombs on the same squares give every list the same count. */
  lemma {:induction false} CountBombsSameBombs(g: CellGrid, h: CellGrid, s: seq<Coord>)
    requires forall q :: IsBombAt(g, q) <==> IsBombAt(h, q)
    ensures CountBombs(g, s) == CountBombs(h, s)
  {
    if |s| > 0 {
      CountBombsSameBombs(g, h, s[..|s| - 1]);
    }
  }

  /** Grids of the same shape with bombs on the same squares give every square the same number. */
  lemma SameBombsSameNumber(g: CellGrid, h: CellGrid, p: Coord)
    requires SameShape(g, h)
    requires forall q :: IsBombAt(g, q) <==> IsBombAt(h, q)
    ensures NeighbourBombs(g, p) == NeighbourBombs(h, p)
  {
    SameShapeNeighbours(g, h, p);
    CountBombsSameBombs(g, h, Neighbours(g, p));
  }

  /** Every non-bomb cell carries the number of bombs around it. */
  ghost predicate NumbersConsistent(g: CellGrid) {
    forall x, y | 0 <= x < |g| && 0 <= y < |g[x]| ::
      g[x][y].state != StateBomb ==> g[x][y].state == NeighbourBombs(g, Coord(x, y))
  }

  /** The squares holding a bomb. */
  ghost function BombSet(g: CellGrid): set<Coord> {
    set x, y | 0 <= x < |g| && 0 <= y < |g[x]| && g[x][y].state == StateBomb :: Coord(x, y)
  }

  /** Contents agree square by square. */
  ghost predicate SameContents(g: CellGrid, h: CellGrid) {
    SameShape(g, h) && forall x, y | 0 <= x < |g| && 0 <= y < |g[x]| :: g[x][y].state == h[x][y].state
  }

  /** Bombs and numbers depend on contents only: opening and flagging cannot disturb them. */
  lemma ContentsDetermineNumbers(g: CellGrid, h: CellGrid)
    requires SameContents(g, h)
    ensures BombSet(g) == BombSet(h)
    ensures NumbersConsistent(g) <==> NumbersConsistent(h)
  {
    assert forall q :: IsBombAt(g, q) <==> IsBombAt(h, q);
    forall x, y | 0 <= x < |g| && 0 <= y < |g[x]|
      ensures NeighbourBombs(g, Coord(x, y)) == NeighbourBombs(h, Coord(x, y))
    {
      SameBombsSameNumber(g, h, Coord(x, y));
    }
  }

  /** The grid with a bomb put on square `p`, as one pass of `PutBombs`'s retry loop leaves it. */
  function WithBomb(g: CellGrid, p: Coord): CellGrid
    requires InGrid(g, p)
  {
    g[p.x := g[p.x][p.y := At(g, p).(state := StateBomb)]]
  }

  /** The distinct squares among `picks` that are in the grid and hold no bomb yet. */
  ghost function FreeAmong(g: CellGrid, picks: seq<Coord>): set<Coord> {
    set p | p in picks && InGrid(g, p) && At(g, p).state != StateBomb
  }

  /** Putting a bomb on a free square adds exactly that square to the bombs and removes it from
      the free squares. */
  lemma PlaceBombEffect(g: CellGrid, p: Coord, picks: seq<Coord>)
    requires InGrid(g, p) && At(g, p).state != StateBomb
    ensures BombSet(WithBomb(g, p)) == BombSet(g) + {p}
    ensures FreeAmong(WithBomb(g, p), picks) == FreeAmong(g, picks) - {p}
  {
    var h := WithBomb(g, p);
    forall q ensures q in BombSet(h) <==> q in BombSet(g) + {p} {
      if q in BombSet(h) {
        assert h[q.x][q.y].state == StateBomb;
      }
      if q in BombSet(g) {
        assert g[q.x][q.y].state == StateBomb;
      }
    }
  }

  /** No pick is left in an exhausted sequence of picks. */
  lemma NoFreeAtEnd(g: CellGrid, picks: seq<Coord>)
    ensures FreeAmong(g, picks[|picks|..]) == {}
  {
  }

  /** One round of `PutBombs`'s retry loop on pick `picks[k]`: a bomb there leaves the free squares
      among the remaining picks as they were; a free square becomes the one new bomb. */
  lemma PickStep(g: CellGrid, picks: seq<Coord>, k: nat)
    requires k < |picks| && InGrid(g, picks[k])
    ensures At(g, picks[k]).state == StateBomb ==> FreeAmong(g, picks[k + 1..]) == FreeAmong(g, picks[k..])
    ensures At(g, picks[k]).state != StateBomb ==>
      picks[k] in FreeAmong(g, picks[k..]) && picks[k] !in BombSet(g) &&
      BombSet(WithBomb(g, picks[k])) == BombSet(g) + {picks[k]} &&
      FreeAmong(WithBomb(g, picks[k]), picks[k + 1..]) == FreeAmong(g, picks[k..]) - {picks[k]}
  {
    var p := picks[k];
    assert picks[k..] == [p] + picks[k + 1..];
    if At(g, p).state != StateBomb {
      PlaceBombEffect(g, p, picks[k + 1..]);
    }
  }

  /** The picks from `k0` up to `k` all landed on bombs. */
  ghost predicate AllBombs(g: CellGrid, picks: seq<Coord>, k0: int, k: int) {
    forall m :: k0 <= m < k && 0 <= m < |picks| ==> IsBombAt(g, picks[m])
  }

  /** The retry loop stopping at pick `k - 1`, the first free one from `k0` on: the bomb put there
      uses up one of the free squares among the picks. */
  lemma FirstFreePick(g: CellGrid, picks: seq<Coord>, k0: int, k: int)
    requires 0 <= k0 < k <= |picks| && InGrid(g, picks[k - 1]) && At(g, picks[k - 1]).state != StateBomb
    requires FreeAmong(g, picks[k - 1..]) == FreeAmong(g, picks[k0..])
    requires AllBombs(g, picks, k0, k - 1)
    ensures |FreeAmong(WithBomb(g, picks[k - 1]), picks[k..])| == |FreeAmong(g, picks[k0..])| - 1
    ensures forall m :: k0 <= m < k - 1 ==> IsBombAt(g, picks[m])
  {
    var p := picks[k - 1];
    PickStep(g, picks, k - 1);
    var before, after := FreeAmong(g, picks[k - 1..]), FreeAmong(WithBomb(g, p), picks[k..]);
    assert p in before && after == before - {p};
    assert before == after + {p} && p !in after;
  }

  /** The check `PutBombs` makes compares the count with the number of squares only, not with the
      squares still free. A 2 x 2 board that `MakeBoard(2, 2, 3)` can leave behind passes it for two
      more bombs, yet every sequence of picks holds fewer than two free squares: the retry loop
      cannot place them all, and in the Go code it never ends. */
  lemma CountCheckIgnoresPlacedBombs()
    ensures var g := [[Cell(StateBomb, false, false), Cell(StateBomb, false, false)],
                      [Cell(StateBomb, false, false), Cell(3, false, false)]];
      var count := 2;
      |g| > 0 && |g[0]| > 0 && !(count >= |g| * |g[0]|) &&
      forall picks: seq<Coord> :: |FreeAmong(g, picks)| < count
  {
    var g := [[Cell(StateBomb, false, false), Cell(StateBomb, false, false)],
              [Cell(StateBomb, false, false), Cell(3, false, false)]];
    forall picks: seq<Coord> ensures |FreeAmong(g, picks)| < 2 {
      var free := Coord(1, 1);
      if free in picks {
        assert FreeAmong(g, picks) == {free};
      } else {
        assert FreeAmong(g, picks) == {};
      }
    }
  }

  /** What `PutBombs` may do to a grid: put bombs on some squares, and nothing else. */
  ghost predicate OnlyBombsAdded(g: CellGrid, h: CellGrid) {
    SameShape(g, h) &&
    forall x, y | 0 <= x < |g| && 0 <= y < |g[x]| :: h[x][y] == g[x][y] || h[x][y] == g[x][y].(state := StateBomb)
  }

  lemma AddBombKeeps(g0: CellGrid, g: CellGrid, p: Coord)
    requires OnlyBombsAdded(g0, g) && InGrid(g, p)
    ensures OnlyBombsAdded(g0, WithBomb(g, p))
    ensures Rectangular(g) ==> Rectangular(WithBomb(g, p))
    ensures forall q :: InGrid(g, q) ==> InGrid(WithBomb(g, p), q)
  {
  }

  // ---------------------------------------------------------------------------------------------
  // Numbering

  /** What `PutNumbers` makes of a square: a bomb stays, any other square gets its bomb count. */
  ghost function NumberedCell(g: CellGrid, p: Coord): Cell
    requires InGrid(g, p)
  {
    if At(g, p).state == StateBomb then At(g, p) else At(g, p).(state := NeighbourBombs(g, p))
  }

  /** `h` is `g` with the squares before (x, y), in the column-major order of `PutNumbers`, numbered. */
  ghost predicate NumberedUpTo(g: CellGrid, h: CellGrid, x: int, y: int) {
    SameShape(g, h) &&
    forall i, j | 0 <= i < |g| && 0 <= j < |g[i]| ::
      h[i][j] == if i < x || (i == x && j < y) then NumberedCell(g, Coord(i, j)) else g[i][j]
  }

  /** Numbering never creates nor removes a bomb. */
  lemma NumberedKeepsBombs(g: CellGrid, h: CellGrid, x: int, y: int)
    requires NumberedUpTo(g, h, x, y)
    ensures forall q :: IsBombAt(g, q) <==> IsBombAt(h, q)
  {
    forall q | InGrid(g, q) && At(g, q).state != StateBomb ensures !IsBombAt(h, q) {
      assert NumberedCell(g, q).state >= 0;
    }
  }

  /** Numbering square (x, y) moves the frontier one square on. */
  lemma NumberedStep(g: CellGrid, h: CellGrid, x: int, y: int, n: State)
    requires NumberedUpTo(g, h, x, y) && 0 <= x < |g| && 0 <= y < |g[x]|
    requires g[x][y].state != StateBomb ==> n == NeighbourBombs(g, Coord(x, y))
    ensures h[x][y] == g[x][y]
    ensures NumberedUpTo(g, if g[x][y].state == StateBomb then h else h[x := h[x][y := h[x][y].(state := n)]], x, y + 1)
  {
  }

  lemma NumberedNextColumn(g: CellGrid, h: CellGrid, x: int)
    requires 0 <= x < |g| && NumberedUpTo(g, h, x, |g[x]|)
    ensures NumberedUpTo(g, h, x + 1, 0)
  {
  }

  // ---------------------------------------------------------------------------------------------
  // The region a flood-fill reveals

  predicate IsEmptyAt(g: CellGrid, q: Coord) {
    InGrid(g, q) && At(g, q).state == StateEmpty
  }

  /** A walk through Empty squares, each step to one of the eight surrounding squares. */
  ghost predicate EmptyPath(g: CellGrid, path: seq<Coord>) {
    (forall k :: 0 <= k < |path| ==> IsEmptyAt(g, path[k])) &&
    (forall k :: 0 < k < |path| ==> Adjacent(path[k - 1], path[k]))
  }

  /** `q` lies in the 8-connected component of Empty squares that contains `t`. */
  ghost predicate InEmptyRegion(g: CellGrid, t: Coord, q: Coord) {
    exists path :: EmptyPath(g, path) && |path| > 0 && path[0] == t && path[|path| - 1] == q
  }

  /** `q` is a Number square next to the Empty component of `t`. */
  ghost predicate OnBorder(g: CellGrid, t: Coord, q: Coord) {
    InGrid(g, q) && At(g, q).state > StateEmpty && exists r :: InEmptyRegion(g, t, r) && Adjacent(r, q)
  }

  /** The squares an `OpenCell` at the unflagged square `t` opens. */
  ghost predicate Revealed(g: CellGrid, t: Coord, q: Coord)
    requires InGrid(g, t)
  {
    if At(g, t).state == StateEmpty then InEmptyRegion(g, t, q) || OnBorder(g, t, q) else q == t
  }

  lemma RegionStart(g: CellGrid, t: Coord)
    requires IsEmptyAt(g, t)
    ensures InEmptyRegion(g, t, t)
  {
    assert EmptyPath(g, [t]);
  }

  /** The component grows by any Empty square next to it. */
  lemma RegionStep(g: CellGrid, t: Coord, p: Coord, q: Coord)
    requires InEmptyRegion(g, t, p) && IsEmptyAt(g, q) && Adjacent(p, q)
    ensures InEmptyRegion(g, t, q)
  {
    var path :| EmptyPath(g, path) && |path| > 0 && path[0] == t && path[|path| - 1] == p;
    var longer := path + [q];
    assert EmptyPath(g, longer);
    assert longer[0] == t && longer[|longer| - 1] == q;
  }

  /** A set of squares that holds `t` and every Empty square next to one of its members
      holds the whole Empty component of `t`. */
  lemma RegionWithinClosedSet(g: CellGrid, t: Coord, b: set<Coord>, q: Coord)
    requires t in b
    requires forall p, r :: p in b && IsEmptyAt(g, r) && Adjacent(p, r) ==> r in b
    requires InEmptyRegion(g, t, q)
    ensures q in b
  {
    var path :| EmptyPath(g, path) && |path| > 0 && path[0] == t && path[|path| - 1] == q;
    var k := 0;
    while k < |path| - 1
      invariant 0 <= k < |path|
      invariant path[k] in b
    {
      assert IsEmptyAt(g, path[k + 1]) && Adjacent(path[k], path[k + 1]);
      k := k + 1;
    }
  }

  /** Every square of an Empty component is Empty. */
  lemma RegionIsEmpty(g: CellGrid, t: Coord, q: Coord)
    requires InEmptyRegion(g, t, q)
    ensures IsEmptyAt(g, q)
  {
    var path :| EmptyPath(g, path) && |path| > 0 && path[0] == t && path[|path| - 1] == q;
    assert IsEmptyAt(g, path[|path| - 1]);
  }

  /** A flood-fill never uncovers a bomb: the only bomb an `OpenCell` can open is the square clicked. */
  lemma FloodNeverRevealsBomb(g: CellGrid, t: Coord, q: Coord)
    requires InGrid(g, t) && Revealed(g, t, q) && q != t
    ensures InGrid(g, q) && At(g, q).state != StateBomb
  {
    if InEmptyRegion(g, t, q) {
      RegionIsEmpty(g, t, q);
    }
  }

  predicate IsNumberAt(g: CellGrid, q: Coord) {
    InGrid(g, q) && At(g, q).state > StateEmpty
  }

  /** The Number squares of `s`, in order. */
  function Numbers(g: CellGrid, s: seq<Coord>): seq<Coord> {
    if |s| == 0 then []
    else Numbers(g, s[..|s| - 1]) + if IsNumberAt(g, s[|s| - 1]) then [s[|s| - 1]] else []
  }

  /** The Number squares gathered from the neighbour lists of the squares of `blank`, in the order
      `OpenCell` gathers them. */
  function NumbersAround(g: CellGrid, blank: seq<Coord>): seq<Coord> {
    if |blank| == 0 then []
    else NumbersAround(g, blank[..|blank| - 1]) + Numbers(g, Neighbours(g, blank[|blank| - 1]))
  }

  lemma {:induction false} NumbersMembers(g: CellGrid, s: seq<Coord>, q: Coord)
    ensures q in Numbers(g, s) <==> q in s && IsNumberAt(g, q)
  {
    if |s| > 0 {
      NumbersMembers(g, s[..|s| - 1], q);
      assert s == s[..|s| - 1] + [s[|s| - 1]];
    }
  }

  lemma {:induction false} NumbersAroundMembers(g: CellGrid, blank: seq<Coord>, q: Coord)
    ensures q in NumbersAround(g, blank) <==>
      IsNumberAt(g, q) && exists m :: 0 <= m < |blank| && q in Neighbours(g, blank[m])
  {
    if |blank| > 0 {
      var init := blank[..|blank| - 1];
      NumbersAroundMembers(g, init, q);
      NumbersMembers(g, Neighbours(g, blank[|blank| - 1]), q);
      if exists m :: 0 <= m < |blank| - 1 && q in Neighbours(g, blank[m]) {
        var m :| 0 <= m < |blank| - 1 && q in Neighbours(g, blank[m]);
        assert init[m] == blank[m];
      }
      if exists m :: 0 <= m < |init| && q in Neighbours(g, init[m]) {
        var m :| 0 <= m < |init| && q in Neighbours(g, init[m]);
        assert init[m] == blank[m];
      }
    }
  }

  /** Which squares are Number squares depends on contents only. */
  lemma {:induction false} NumbersSameContents(g: CellGrid, h: CellGrid, s: seq<Coord>)
    requires SameShape(g, h)
    requires forall x, y | 0 <= x < |g| && 0 <= y < |g[x]| :: g[x][y].state == h[x][y].state
    ensures Numbers(g, s) == Numbers(h, s)
  {
    if |s| > 0 {
      NumbersSameContents(g, h, s[..|s| - 1]);
    }
  }

  /** Opening one more square of `h`. */
  lemma OpenOneMore(g: CellGrid, h: CellGrid, shown: set<Coord>, p: Coord)
    requires OpenedExactly(g, h, shown) && InGrid(g, p)
    ensures OpenedExactly(g, h[p.x := h[p.x][p.y := Open(h[p.x][p.y]).cell]], shown + {p})
    ensures Rectangular(g) ==> Rectangular(h[p.x := h[p.x][p.y := Open(h[p.x][p.y]).cell]])
  {
  }

  /** Opening exactly the squares `Revealed` names keeps contents and flags and opens those squares. */
  lemma OpenedAsRevealed(g: CellGrid, h: CellGrid, t: Coord, shown: set<Coord>)
    requires Rectangular(g) && InGrid(g, t) && OpenedExactly(g, h, shown)
    requires forall q :: q in shown <==> Revealed(g, t, q)
    ensures Rectangular(h) && SameContents(g, h)
    ensures forall i, j | 0 <= i < |h| && 0 <= j < |h[i]| ::
      h[i][j].isFlagged == g[i][j].isFlagged &&
      h[i][j].isOpen == (g[i][j].isOpen || Revealed(g, t, Coord(i, j)))
  {
  }

  /** Opening `a` and then `b` opens `a + b`. */
  lemma OpenedThenOpened(g: CellGrid, h: CellGrid, k: CellGrid, a: set<Coord>, b: set<Coord>)
    requires OpenedExactly(g, h, a) && OpenedExactly(h, k, b)
    ensures OpenedExactly(g, k, a + b)
  {
  }

  // ---------------------------------------------------------------------------------------------
  // The blank squares sharing a side with a cell

  /** `q` is one of the four squares sharing a side with `p`. */
  predicate SideAdjacent(q: Coord, p: Coord) {
    (q.x == p.x && (q.y == p.y - 1 || q.y == p.y + 1)) || (q.y == p.y && (q.x == p.x - 1 || q.x == p.x + 1))
  }

  /** The squares the `dx`, `dy` loops of `GetAdjacentBlanks` have collected when they are about to
      visit (i, j) = (x + dx, y + dy), in the same order as `NeighboursBefore`: a visit keeps (i, j)
      when it is not the cell itself nor diagonal to it, is in range, and is Empty. */
  function BlanksBefore(g: CellGrid, x: int, y: int, maxX: int, maxY: int, i: int, j: int): seq<Coord>
    requires x - 1 <= i <= x + 2 && y - 1 <= j <= y + 2 && (i < x + 2 || j == y - 1)
    decreases 4 * (i - x) + (j - y) + 5
  {
    if j > y - 1 then
      var prev := BlanksBefore(g, x, y, maxX, maxY, i, j - 1);
      var q := Coord(i, j - 1);
      if (i == x && j - 1 == y) || (i - x) * (j - 1 - y) != 0 || IsInvalidIndex(i, j - 1, maxX, maxY) || !IsEmptyAt(g, q) then prev
      else prev + [q]
    else if i > x - 1 then BlanksBefore(g, x, y, maxX, maxY, i - 1, y + 2)
    else []
  }

  /** A visit to an in-range Empty square sharing a side with (x, y) appends it. */
  lemma BlanksBeforeKeep(g: CellGrid, x: int, y: int, maxX: int, maxY: int, i: int, j: int)
    requires x - 1 <= i <= x + 1 && y - 1 <= j <= y + 1
    requires !((i == x && j == y) || (i - x) * (j - y) != 0) && !IsInvalidIndex(i, j, maxX, maxY) && IsEmptyAt(g, Coord(i, j))
    ensures BlanksBefore(g, x, y, maxX, maxY, i, j + 1) == BlanksBefore(g, x, y, maxX, maxY, i, j) + [Coord(i, j)]
  {
  }

  /** Any other visit appends nothing. */
  lemma BlanksBeforeSkip(g: CellGrid, x: int, y: int, maxX: int, maxY: int, i: int, j: int)
    requires x - 1 <= i <= x + 1 && y - 1 <= j <= y + 1
    requires (i == x && j == y) || (i - x) * (j - y) != 0 || IsInvalidIndex(i, j, maxX, maxY) || !IsEmptyAt(g, Coord(i, j))
    ensures BlanksBefore(g, x, y, maxX, maxY, i, j + 1) == BlanksBefore(g, x, y, maxX, maxY, i, j)
  {
  }

  /** The end of column i is the start of column i + 1. */
  lemma BlanksBeforeNextColumn(g: CellGrid, x: int, y: int, maxX: int, maxY: int, i: int)
    requires x - 1 <= i <= x + 1
    ensures BlanksBefore(g, x, y, maxX, maxY, i + 1, y - 1) == BlanksBefore(g, x, y, maxX, maxY, i, y + 2)
  {
  }

  /** The collected squares are the in-range Empty squares sharing a side with (x, y) that come
      before (i, j) in the loops' order. */
  lemma {:induction false} BlanksBeforeMembers(g: CellGrid, x: int, y: int, maxX: int, maxY: int, i: int, j: int, q: Coord)
    requires x - 1 <= i <= x + 2 && y - 1 <= j <= y + 2 && (i < x + 2 || j == y - 1)
    ensures q in BlanksBefore(g, x, y, maxX, maxY, i, j) <==>
      !IsInvalidIndex(q.x, q.y, maxX, maxY) && IsEmptyAt(g, q) && SideAdjacent(q, Coord(x, y)) &&
      (q.x < i || (q.x == i && q.y < j))
    decreases 4 * (i - x) + (j - y) + 5
  {
    if j > y - 1 {
      BlanksBeforeMembers(g, x, y, maxX, maxY, i, j - 1, q);
      assert (i - x) * (j - 1 - y) != 0 <==> i - x != 0 && j - 1 - y != 0;
    } else if i > x - 1 {
      BlanksBeforeMembers(g, x, y, maxX, maxY, i - 1, y + 2, q);
    }
  }

  /** No square is collected twice. */
  lemma {:induction false} BlanksBeforeNoDup(g: CellGrid, x: int, y: int, maxX: int, maxY: int, i: int, j: int)
    requires x - 1 <= i <= x + 2 && y - 1 <= j <= y + 2 && (i < x + 2 || j == y - 1)
    ensures NoDup(BlanksBefore(g, x, y, maxX, maxY, i, j))
    decreases 4 * (i - x) + (j - y) + 5
  {
    if j > y - 1 {
      BlanksBeforeNoDup(g, x, y, maxX, maxY, i, j - 1);
      var prev := BlanksBefore(g, x, y, maxX, maxY, i, j - 1);
      var s := BlanksBefore(g, x, y, maxX, maxY, i, j);
      if s != prev {
        var q := Coord(i, j - 1);
        BlanksBeforeMembers(g, x, y, maxX, maxY, i, j - 1, q);
        assert s == prev + [q] && q !in prev;
        forall a, b | 0 <= a < b < |s| ensures s[a] != s[b] {
          if b == |s| - 1 {
            assert s[a] == prev[a] && prev[a] in prev;
          } else {
            assert s[a] == prev[a] && s[b] == prev[b];
          }
        }
      }
    } else if i > x - 1 {
      BlanksBeforeNoDup(g, x, y, maxX, maxY, i - 1, y + 2);
    }
  }

  /** What `GetAdjacentBlanks(x, y, maxX, maxY)` returns: all its loops collect. */
  function AdjacentBlanks(g: CellGrid, x: int, y: int, maxX: int, maxY: int): seq<Coord> {
    BlanksBefore(g, x, y, maxX, maxY, x + 2, y - 1)
  }

  /** The result holds exactly the in-range Empty squares sharing a side with (x, y), each once. */
  lemma AdjacentBlanksSpec(g: CellGrid, x: int, y: int, maxX: int, maxY: int)
    ensures forall q :: q in AdjacentBlanks(g, x, y, maxX, maxY) <==>
      0 <= q.x <= maxX && 0 <= q.y <= maxY && IsEmptyAt(g, q) && SideAdjacent(q, Coord(x, y))
    ensures NoDup(AdjacentBlanks(g, x, y, maxX, maxY))
  {
    BlanksBeforeNoDup(g, x, y, maxX, maxY, x + 2, y - 1);
    forall q ensures q in AdjacentBlanks(g, x, y, maxX, maxY) <==>
      0 <= q.x <= maxX && 0 <= q.y <= maxY && IsEmptyAt(g, q) && SideAdjacent(q, Coord(x, y))
    {
      BlanksBeforeMembers(g, x, y, maxX, maxY, x + 2, y - 1, q);
    }
  }

  // ---------------------------------------------------------------------------------------------
  // What the player sees

  /** The observable state of every square, as `GetBoard` lays it out. */
  function View(g: CellGrid): seq<seq<State>> {
    seq(|g|, x requires 0 <= x < |g| => seq(|g[x]|, y requires 0 <= y < |g[x]| => GetState(g[x][y])))
  }

  /** Two grids whose cells agree on open and flag, and on content where a cell is open and
      unflagged, look the same: a hidden content never reaches the view. */
  lemma ViewHidesClosedContent(g: CellGrid, h: CellGrid)
    requires SameShape(g, h)
    requires forall x, y | 0 <= x < |g| && 0 <= y < |g[x]| ::
      g[x][y].isOpen == h[x][y].isOpen && g[x][y].isFlagged == h[x][y].isFlagged &&
      (g[x][y].isOpen && !g[x][y].isFlagged ==> g[x][y].state == h[x][y].state)
    ensures View(g) == View(h)
  {
    forall x | 0 <= x < |g| ensures View(g)[x] == View(h)[x] {
      forall y | 0 <= y < |g[x]| ensures View(g)[x][y] == View(h)[x][y] {
        if !g[x][y].isOpen || g[x][y].isFlagged {
          HiddenContentNotObservable(g[x][y], h[x][y]);
        }
      }
    }
  }

  /** Every square of the grid. */
  ghost function AllCoords(g: CellGrid): set<Coord> {
    set x, y | 0 <= x < |g| && 0 <= y < |g[x]| :: Coord(x, y)
  }

  /** `h` is `g` with exactly the squares of `shown` opened. */
  ghost predicate OpenedExactly(g: CellGrid, h: CellGrid, shown: set<Coord>) {
    SameShape(g, h) &&
    forall x, y | 0 <= x < |g| && 0 <= y < |g[x]| ::
      h[x][y] == if Coord(x, y) in shown then g[x][y].(isOpen := true) else g[x][y]
  }

  /** A fresh board: no square is open or flagged. */
  ghost predicate AllClosed(g: CellGrid) {
    forall x, y | 0 <= x < |g| && 0 <= y < |g[x]| :: !g[x][y].isOpen && !g[x][y].isFlagged
  }

  /** The win condition: every square is open or flagged. */
  predicate AllOpenedOrFlagged(g: CellGrid) {
    forall x, y | 0 <= x < |g| && 0 <= y < |g[x]| :: g[x][y].isOpen || g[x][y].isFlagged
  }
}
