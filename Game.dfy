/** The game object: a grid, the mines scattered over it at random, and the tiles covering it
    (class `Minesweeper` and the position choice of class `Mine` of game.js). */
module Game {
  import opened Geometry
  import opened Errors
  import opened MineField
  import opened Grids
  import opened TileBoard

  /** The values `Math.floor(Math.random() * n)` can take: [0, n) when n > 0, and [n, 0]
      otherwise (a random fraction times a non-positive bound lies in (n, 0]). */
  predicate Drawable(n: int, k: int) {
    if n > 0 then 0 <= k < n else n <= k <= 0
  }

  /** Where `new Mine(rows, cols)` and `refreshPosition` put a mine: any drawable row and
      column, chosen nondeterministically in place of the random generator. */
  method DrawPosition(rows: int, cols: int) returns (p: Pos)
    ensures Drawable(rows, p.0) && Drawable(cols, p.1)
  {
    var r: int;
    if rows > 0 { r :| 0 <= r < rows; } else { r :| rows <= r <= 0; }
    var c: int;
    if cols > 0 { c :| 0 <= c < cols; } else { c :| cols <= c <= 0; }
    p := (r, c);
  }

  /** The draw that ends the rejection loop `while (containsMine(..)) refreshPosition(..)`:
      some cell of the board that holds no mine. One exists whenever the board is not full. */
  method DrawFreeCell(grid: Grid) returns (p: Pos)
    requires grid.Valid() && |Mines(grid.arr)| < Dim(grid.rows) * Dim(grid.cols)
    ensures grid.InBounds(p.0, p.1) && !IsMine(grid.arr, p)
  {
    FreeCellExists(grid.arr, Dim(grid.rows), Dim(grid.cols));
    var q :| Inside(grid.arr, q) && !IsMine(grid.arr, q);
    p := q;
  }

  /** No position occurs twice. */
  predicate Distinct(ms: seq<Pos>) {
    forall i, j | 0 <= i < j < |ms| :: ms[i] != ms[j]
  }

  /** The positions `ms` drawn so far on a grid whose mines were `M0` before and are `M` now:
      distinct, on the board, new, and together with `M0` exactly the mines `M`. */
  ghost predicate Scattered(M: set<Pos>, M0: set<Pos>, ms: seq<Pos>, rows: int, cols: int) {
    Distinct(ms) &&
    (forall m | m in ms :: 0 <= m.0 < rows && 0 <= m.1 < cols && m !in M0) &&
    M == M0 + (set m | m in ms) && |M| == |M0| + |ms|
  }

  /** Places `numMines` mines on free cells of `grid`, each drawn until it lands on a free
      cell, and returns their positions. On a board without cells the first draw is off the
      board and the test for a mine fails. A board with fewer free cells than `numMines`
      would make the drawing loop run forever, so that case is excluded. */
  method GetRandomMines(grid: Grid, rows: int, cols: int, numMines: int) returns (res: Result<seq<Pos>>)
    requires grid.Valid() && grid.rows == rows && grid.cols == cols
    requires Dim(rows) * Dim(cols) == 0 || |Mines(grid.arr)| + numMines <= Dim(rows) * Dim(cols)
    modifies grid
    ensures grid.Valid()
    ensures res.Err? <==> numMines > 0 && Dim(rows) * Dim(cols) == 0
    ensures res.Err? ==> grid.arr == old(grid.arr) && !grid.InBounds(res.error.row, res.error.col)
    ensures res.Ok? ==> |res.value| == Dim(numMines)
    ensures res.Ok? ==> Scattered(Mines(grid.arr), old(Mines(grid.arr)), res.value, rows, cols)
    ensures old(Consistent(grid.arr)) ==> Consistent(grid.arr)
  {
    ghost var M0 := Mines(grid.arr);
    var minesArr: seq<Pos> := [];
    var i := 0;
    while i < numMines
      invariant 0 <= i <= Dim(numMines) && |minesArr| == i
      invariant grid.Valid()
      invariant i == 0 ==> grid.arr == old(grid.arr)
      invariant i > 0 ==> Dim(rows) * Dim(cols) > 0
      invariant Scattered(Mines(grid.arr), M0, minesArr, rows, cols)
      invariant old(Consistent(grid.arr)) ==> Consistent(grid.arr)
      decreases numMines - i
    {
      ghost var before := grid.arr;
      var placed := PlaceMine(grid, rows, cols);
      if placed.Err? {
        return Err(placed.error);
      }
      var mine := placed.value;
      ScatteredStep(Mines(before), Mines(grid.arr), M0, minesArr, rows, cols, mine);
      minesArr := minesArr + [mine];
      i := i + 1;
    }
    return Ok(minesArr);
  }

  /** One round of the drawing loop: draw a position, redraw while it holds a mine, and place
      a mine there. It fails, changing nothing, exactly when the board has no cell. */
  method PlaceMine(grid: Grid, rows: int, cols: int) returns (res: Result<Pos>)
    requires grid.Valid() && grid.rows == rows && grid.cols == cols
    requires Dim(rows) * Dim(cols) == 0 || |Mines(grid.arr)| < Dim(rows) * Dim(cols)
    modifies grid
    ensures grid.Valid()
    ensures res.Err? <==> Dim(rows) * Dim(cols) == 0
    ensures res.Err? ==> grid.arr == old(grid.arr) && !grid.InBounds(res.error.row, res.error.col)
    ensures res.Ok? ==> grid.InBounds(res.value.0, res.value.1) && res.value !in old(Mines(grid.arr))
    ensures res.Ok? ==> Mines(grid.arr) == old(Mines(grid.arr)) + {res.value}
    ensures res.Ok? ==> |Mines(grid.arr)| == |old(Mines(grid.arr))| + 1
    ensures old(Consistent(grid.arr)) ==> Consistent(grid.arr)
  {
    var mine := DrawPosition(rows, cols);
    var taken := grid.ContainsMine(mine.0, mine.1);
    if taken.Err? {
      return Err(taken.error);
    }
    assert Dim(rows) * Dim(cols) > 0 by {
      PositiveProduct(Dim(rows), Dim(cols));
    }
    if taken.value {
      mine := DrawFreeCell(grid);
    }
    MinesIff(grid.arr, mine);
    ghost var before := grid.arr;
    var placed := grid.PutMine(mine);
    PlacedKeepsInvariant(before, mine);
    return Ok(mine);
  }

  /** Placing one more mine on a free cell of the board extends the drawn positions by it. */
  lemma ScatteredStep(M: set<Pos>, M': set<Pos>, M0: set<Pos>, ms: seq<Pos>, rows: int, cols: int, m: Pos)
    requires Scattered(M, M0, ms, rows, cols)
    requires 0 <= m.0 < rows && 0 <= m.1 < cols && m !in M
    requires M' == M + {m} && |M'| == |M| + 1
    ensures Scattered(M', M0, ms + [m], rows, cols)
  {
    forall i | 0 <= i < |ms| ensures ms[i] != m {
      assert ms[i] in set x | x in ms;
    }
    assert (set x | x in ms + [m]) == (set x | x in ms) + {m};
  }

  lemma PositiveProduct(a: nat, b: nat)
    requires a > 0 && b > 0
    ensures a * b > 0
  {
  }

  class Minesweeper {
    const rows: int
    const cols: int
    const numMines: int
    const grid: Grid
    const minesArr: seq<Pos>
    const tiles: Tiles

    /** The tiles cover this game's grid, every number counts the mines around its cell, and
        the mine cells are exactly the recorded positions. */
    ghost predicate Valid()
      reads this, grid, tiles
    {
      tiles.grid == grid && tiles.Valid() && grid.rows == rows && grid.cols == cols &&
      Consistent(grid.arr) && Mines(grid.arr) == set m | m in minesArr
    }

    /** A new game: an empty grid, `numMines` mines on distinct cells, then a board of covered,
        unflagged tiles. A board without cells and with mines to place makes the game's
        constructor throw, and more mines than cells make it run forever; both are excluded. */
    constructor (rows: int, cols: int, numMines: int)
      requires numMines <= Dim(rows) * Dim(cols)
      ensures this.rows == rows && this.cols == cols && this.numMines == numMines
      ensures Valid()
      ensures |minesArr| == Dim(numMines) && Scattered(Mines(grid.arr), {}, minesArr, rows, cols)
      ensures tiles.HiddenSet() == Cells(Dim(rows), Dim(cols)) && tiles.FlaggedSet() == {}
    {
      this.rows := rows;
      this.cols := cols;
      this.numMines := numMines;
      var g := new Grid(rows, cols);
      var mines := GetRandomMines(g, rows, cols, numMines);
      grid := g;
      minesArr := mines.value;
      tiles := new Tiles(rows, cols, g);
    }
  }
}
