/** What the grid holds: a mine or the number of mines around a cell, and the
    adjacency invariant that mine placement keeps. */
module MineField {
  import opened Geometry

  /** The content of a grid cell. The game stores either a mine object or a number;
      which of the two it is, is a tag here. */
  datatype Cell = Mine | Count(n: int)

  /** The effect of one `incrementLocation` on a cell: a mine stays a mine, a number goes up by one. */
  function Bump(c: Cell): Cell {
    match c
    case Mine => Mine
    case Count(n) => Count(n + 1)
  }

  predicate IsMine(g: seq<seq<Cell>>, p: Pos) {
    Inside(g, p) && g[p.0][p.1].Mine?
  }

  predicate IsZero(g: seq<seq<Cell>>, p: Pos) {
    Inside(g, p) && g[p.0][p.1] == Count(0)
  }

  /** Every mine of the grid. */
  function Mines(g: seq<seq<Cell>>): set<Pos> {
    set r, c | 0 <= r < |g| && 0 <= c < |g[r]| && g[r][c].Mine? :: (r, c)
  }

  lemma MinesIff(g: seq<seq<Cell>>, p: Pos)
    ensures p in Mines(g) <==> IsMine(g, p)
  {
    if IsMine(g, p) {
      var (r, c) := p;
      assert (r, c) in Mines(g);
    }
  }

  /** The mines among the on-board neighbours of `p`. */
  function MinesAround(g: seq<seq<Cell>>, p: Pos): set<Pos> {
    set q | q in Neighbours(g, p) && IsMine(g, q)
  }

  /** The adjacency invariant: every cell that is not a mine holds the number of mines around it. */
  ghost predicate Consistent(g: seq<seq<Cell>>) {
    forall r, c | 0 <= r < |g| && 0 <= c < |g[r]| && g[r][c].Count? ::
      g[r][c].n == |MinesAround(g, (r, c))|
  }

  /** A fresh grid: every cell holds 0. */
  predicate AllZero(g: seq<seq<Cell>>) {
    forall r, c | 0 <= r < |g| && 0 <= c < |g[r]| :: g[r][c] == Count(0)
  }

  /** Every 0 cell has no mine around it. */
  ghost predicate ZeroSafe(g: seq<seq<Cell>>) {
    forall z, q | IsZero(g, z) && q in Neighbours(g, z) :: !IsMine(g, q)
  }

  /** The three effects of placing a mine at `p`, and no others: `p` becomes a mine,
      every on-board neighbour that is not a mine goes up by exactly one, and
      every other cell is unchanged. */
  predicate MinePut(g: seq<seq<Cell>>, g': seq<seq<Cell>>, p: Pos) {
    Inside(g, p) &&
    |g'| == |g| && (forall r {:trigger g'[r]} | 0 <= r < |g| :: |g'[r]| == |g[r]|) &&
    g'[p.0][p.1] == Mine &&
    forall r, c {:trigger g'[r][c]} | 0 <= r < |g| && 0 <= c < |g[r]| && (r, c) != p ::
      g'[r][c] == if Adjacent(p, (r, c)) then Bump(g[r][c]) else g[r][c]
  }

  /** `g` after one increment of the cell at `q`: one more there if `q` is on the grid
      and holds a number; `g` itself otherwise. */
  function Incremented(g: seq<seq<Cell>>, q: Pos): seq<seq<Cell>> {
    if Inside(g, q) then g[q.0 := g[q.0][q.1 := Bump(g[q.0][q.1])]] else g
  }

  /** `g` after incrementing the cells of row `r` in columns `c - 1` and `c + 1`, in that order. */
  function IncrementedSides(g: seq<seq<Cell>>, r: int, c: int): seq<seq<Cell>> {
    Incremented(Incremented(g, (r, c - 1)), (r, c + 1))
  }

  /** `g` after incrementing the cells of row `r` in columns `c`, `c - 1` and `c + 1`, in that order. */
  function IncrementedRow(g: seq<seq<Cell>>, r: int, c: int): seq<seq<Cell>> {
    IncrementedSides(Incremented(g, (r, c)), r, c)
  }

  /** `g` after placing a mine at `p`: the mine itself, then one increment of each
      neighbour in the order the game visits them (left, right, the row above, the row below). */
  function Placed(g: seq<seq<Cell>>, p: Pos): seq<seq<Cell>>
    requires Inside(g, p)
  {
    var a := g[p.0 := g[p.0][p.1 := Mine]];
    IncrementedRow(IncrementedRow(IncrementedSides(a, p.0, p.1), p.0 - 1, p.1), p.0 + 1, p.1)
  }

  /** `a` is `g` after placing a mine at `p` and incrementing the cells of `done`. */
  ghost predicate PartlyPut(g: seq<seq<Cell>>, a: seq<seq<Cell>>, p: Pos, done: set<Pos>) {
    Inside(g, p) &&
    |a| == |g| && (forall r {:trigger a[r]} | 0 <= r < |g| :: |a[r]| == |g[r]|) &&
    a[p.0][p.1] == Mine &&
    forall r, c {:trigger a[r][c]} | 0 <= r < |g| && 0 <= c < |g[r]| && (r, c) != p ::
      a[r][c] == if (r, c) in done then Bump(g[r][c]) else g[r][c]
  }

  lemma IncrementedPartly(g: seq<seq<Cell>>, a: seq<seq<Cell>>, p: Pos, done: set<Pos>, q: Pos)
    requires PartlyPut(g, a, p, done) && q != p && q !in done
    ensures PartlyPut(g, Incremented(a, q), p, done + {q})
  {
  }

  lemma IncrementedRowPartly(g: seq<seq<Cell>>, a: seq<seq<Cell>>, p: Pos, done: set<Pos>, r: int)
    requires PartlyPut(g, a, p, done) && r != p.0
    requires (r, p.1) !in done && (r, p.1 - 1) !in done && (r, p.1 + 1) !in done
    ensures PartlyPut(g, IncrementedRow(a, r, p.1), p, done + {(r, p.1), (r, p.1 - 1), (r, p.1 + 1)})
  {
    var c := p.1;
    IncrementedPartly(g, a, p, done, (r, c));
    var a1 := Incremented(a, (r, c));
    IncrementedPartly(g, a1, p, done + {(r, c)}, (r, c - 1));
    var a2 := Incremented(a1, (r, c - 1));
    IncrementedPartly(g, a2, p, done + {(r, c)} + {(r, c - 1)}, (r, c + 1));
    assert done + {(r, c)} + {(r, c - 1)} + {(r, c + 1)} == done + {(r, c), (r, c - 1), (r, c + 1)};
  }

  /** Placing a mine has the three effects of `MinePut`. */
  lemma PlacedEffect(g: seq<seq<Cell>>, p: Pos)
    requires Inside(g, p)
    ensures MinePut(g, Placed(g, p), p)
  {
    var a0 := g[p.0 := g[p.0][p.1 := Mine]];
    var a1 := Incremented(a0, (p.0, p.1 - 1));
    assert PartlyPut(g, a0, p, {});
    IncrementedPartly(g, a0, p, {}, (p.0, p.1 - 1));
    IncrementedPartly(g, a1, p, {(p.0, p.1 - 1)}, (p.0, p.1 + 1));
    assert {(p.0, p.1 - 1)} + {(p.0, p.1 + 1)} == {(p.0, p.1 - 1), (p.0, p.1 + 1)};
    RowsPartly(g, IncrementedSides(a0, p.0, p.1), p);
  }

  /** After the left and right neighbours, the row above and the row below complete `MinePut`. */
  lemma RowsPartly(g: seq<seq<Cell>>, a: seq<seq<Cell>>, p: Pos)
    requires PartlyPut(g, a, p, {(p.0, p.1 - 1), (p.0, p.1 + 1)})
    ensures MinePut(g, IncrementedRow(IncrementedRow(a, p.0 - 1, p.1), p.0 + 1, p.1), p)
  {
    var r, c := p.0, p.1;
    var d2 := {(r, c - 1), (r, c + 1)};
    IncrementedRowPartly(g, a, p, d2, r - 1);
    var d5 := d2 + {(r - 1, c), (r - 1, c - 1), (r - 1, c + 1)};
    IncrementedRowPartly(g, IncrementedRow(a, r - 1, c), p, d5, r + 1);
    var d8 := d5 + {(r + 1, c), (r + 1, c - 1), (r + 1, c + 1)};
    assert d8 == Ring(p);
    PartlyPutDone(g, IncrementedRow(IncrementedRow(a, r - 1, c), r + 1, c), p, d8);
  }

  /** Once every neighbour has been incremented, the three effects of `MinePut` hold. */
  lemma PartlyPutDone(g: seq<seq<Cell>>, a: seq<seq<Cell>>, p: Pos, done: set<Pos>)
    requires PartlyPut(g, a, p, done) && done == Ring(p)
    ensures MinePut(g, a, p)
  {
    forall q ensures q in done <==> Adjacent(p, q) {
      RingIsAdjacent(p, q);
    }
  }

  /** A blank grid satisfies the invariant and holds no mine. */
  lemma BlankIsConsistent(g: seq<seq<Cell>>)
    requires AllZero(g)
    ensures Consistent(g) && Mines(g) == {}
  {
    forall p ensures p !in Mines(g) {
      MinesIff(g, p);
    }
    forall r, c | 0 <= r < |g| && 0 <= c < |g[r]|
      ensures MinesAround(g, (r, c)) == {}
    {
    }
  }

  /** Placing a mine changes the mine status of `p` alone. */
  lemma MineStatusAfterPut(g: seq<seq<Cell>>, g': seq<seq<Cell>>, p: Pos, x: Pos)
    requires MinePut(g, g', p)
    ensures IsMine(g', x) <==> x == p || IsMine(g, x)
  {
  }

  /** Around a cell next to the new mine, the mines are the old ones plus the new one;
      around any other cell they are unchanged. */
  lemma MinesAroundAfterPut(g: seq<seq<Cell>>, g': seq<seq<Cell>>, p: Pos, q: Pos)
    requires MinePut(g, g', p) && !IsMine(g, p) && Inside(g, q)
    ensures |MinesAround(g', q)| == |MinesAround(g, q)| + (if Adjacent(p, q) then 1 else 0)
  {
    assert Neighbours(g', q) == Neighbours(g, q);
    forall x ensures IsMine(g', x) <==> x == p || IsMine(g, x) {
      MineStatusAfterPut(g, g', p, x);
    }
    NeighboursIff(g, q, p);
    if Adjacent(p, q) {
      assert MinesAround(g', q) == MinesAround(g, q) + {p};
      assert p !in MinesAround(g, q);
    } else {
      assert MinesAround(g', q) == MinesAround(g, q);
    }
  }

  /** Placing a mine adds that cell to the mines, and no other. */
  lemma MinesAfterPut(g: seq<seq<Cell>>, g': seq<seq<Cell>>, p: Pos)
    requires MinePut(g, g', p)
    ensures Mines(g') == Mines(g) + {p}
  {
    forall x ensures x in Mines(g') <==> x in Mines(g) + {p} {
      MinesIff(g, x);
      MinesIff(g', x);
      MineStatusAfterPut(g, g', p, x);
    }
  }

  /** Placing a mine on a cell that holds none keeps the adjacency invariant. */
  lemma PutMineKeepsConsistent(g: seq<seq<Cell>>, g': seq<seq<Cell>>, p: Pos)
    requires Consistent(g) && !IsMine(g, p) && MinePut(g, g', p)
    ensures Consistent(g')
  {
    forall r, c | 0 <= r < |g'| && 0 <= c < |g'[r]| && g'[r][c].Count?
      ensures g'[r][c].n == |MinesAround(g', (r, c))|
    {
      assert (r, c) != p;
      assert g[r][c].Count?;
      MinesAroundAfterPut(g, g', p, (r, c));
    }
  }

  /** `Placed` keeps the shape of the grid, adds `p` to the mines and, when `p` held no
      mine, keeps the adjacency invariant. */
  lemma PlacedKeepsInvariant(g: seq<seq<Cell>>, p: Pos)
    requires Inside(g, p)
    ensures |Placed(g, p)| == |g| && forall r | 0 <= r < |g| :: |Placed(g, p)[r]| == |g[r]|
    ensures Mines(Placed(g, p)) == Mines(g) + {p}
    ensures Consistent(g) && !IsMine(g, p) ==> Consistent(Placed(g, p))
  {
    PlacedEffect(g, p);
    MinesAfterPut(g, Placed(g, p), p);
    if Consistent(g) && !IsMine(g, p) {
      PutMineKeepsConsistent(g, Placed(g, p), p);
    }
  }

  /** Under the invariant every number lies in 0..8. */
  lemma CountsInRange(g: seq<seq<Cell>>)
    requires Consistent(g)
    ensures forall r, c | 0 <= r < |g| && 0 <= c < |g[r]| && g[r][c].Count? :: 0 <= g[r][c].n <= 8
  {
    forall r, c | 0 <= r < |g| && 0 <= c < |g[r]| && g[r][c].Count?
      ensures 0 <= g[r][c].n <= 8
    {
      NeighboursAtMostEight(g, (r, c));
      SubsetCard(MinesAround(g, (r, c)), Neighbours(g, (r, c)));
    }
  }

  /** Under the invariant a 0 cell has no mine around it. */
  lemma ConsistentZeroSafe(g: seq<seq<Cell>>)
    requires Consistent(g)
    ensures ZeroSafe(g)
  {
    forall z, q | IsZero(g, z) && q in Neighbours(g, z)
      ensures !IsMine(g, q)
    {
      assert |MinesAround(g, z)| == 0;
      assert q !in MinesAround(g, z);
    }
  }

  lemma MinesOnBoard(g: seq<seq<Cell>>, rows: nat, cols: nat)
    requires Shaped(g, rows, cols)
    ensures Mines(g) <= Cells(rows, cols)
  {
    CellsIff(rows, cols);
    forall p | p in Mines(g) ensures p in Cells(rows, cols) {
      MinesIff(g, p);
    }
  }

  /** While fewer than `rows * cols` cells are mines, some on-board cell is free. */
  lemma FreeCellExists(g: seq<seq<Cell>>, rows: nat, cols: nat)
    requires Shaped(g, rows, cols) && |Mines(g)| < rows * cols
    ensures exists p :: Inside(g, p) && !IsMine(g, p)
  {
    MinesOnBoard(g, rows, cols);
    CellsIff(rows, cols);
    CellsCard(rows, cols);
    if Cells(rows, cols) <= Mines(g) {
      SubsetCard(Cells(rows, cols), Mines(g));
      assert false;
    }
    var p :| p in Cells(rows, cols) && p !in Mines(g);
    MinesIff(g, p);
  }

  /** Once `rows * cols` cells are mines, every cell is one: no free cell is left to draw. */
  lemma FullBoardHasNoFreeCell(g: seq<seq<Cell>>, rows: nat, cols: nat)
    requires Shaped(g, rows, cols) && |Mines(g)| >= rows * cols
    ensures forall p :: Inside(g, p) ==> IsMine(g, p)
  {
    MinesOnBoard(g, rows, cols);
    CellsIff(rows, cols);
    CellsCard(rows, cols);
    SubsetCard(Mines(g), Cells(rows, cols));
    forall p | Inside(g, p) ensures IsMine(g, p) {
      MinesIff(g, p);
    }
  }
}
