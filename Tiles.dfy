/** The tiles laid over the grid: which cells are still covered and which carry a flag
    (class `Tiles` of game.js, without its page elements). A flag is a tile painted red. */
module TileBoard {
  import opened Geometry
  import opened Errors
  import opened MineField
  import opened Grids
  import opened Flood

  /** `m` with the entry at `p` negated. */
  function Toggle(m: seq<seq<bool>>, p: Pos): (m': seq<seq<bool>>)
    requires Inside(m, p)
    ensures |m'| == |m| && forall r | 0 <= r < |m| :: |m'[r]| == |m[r]|
    ensures Marked(m') == if p in Marked(m) then Marked(m) - {p} else Marked(m) + {p}
  {
    MarkedIff(m, p);
    MarkedAssign(m, p, !m[p.0][p.1]);
    Assign(m, p, !m[p.0][p.1])
  }

  /** Flagging a tile twice leaves it as it was. */
  lemma ToggleTwice(m: seq<seq<bool>>, p: Pos)
    requires Inside(m, p)
    ensures Toggle(Toggle(m, p), p) == m
  {
    assert Toggle(m, p)[p.0][p.1 := m[p.0][p.1]] == m[p.0];
  }

  /** Removing from the flags the cells uncovered by each of three steps in turn is removing
      those uncovered by all three. */
  lemma RemovedChain(F: set<Pos>, H0: set<Pos>, H1: set<Pos>, H2: set<Pos>, H3: set<Pos>)
    requires H3 <= H2 <= H1 <= H0
    ensures F - (H0 - H1) - (H1 - H2) - (H2 - H3) == F - (H0 - H3)
  {
  }

  class Tiles {
    const rows: int
    const cols: int
    const grid: Grid
    /** `true` on every cell whose tile still covers it. */
    var hidden: seq<seq<bool>>
    /** `true` on every tile painted red. */
    var flagged: seq<seq<bool>>

    ghost predicate Valid()
      reads this, grid
    {
      grid.Valid() && grid.rows == rows && grid.cols == cols &&
      Shaped(hidden, Dim(rows), Dim(cols)) && Shaped(flagged, Dim(rows), Dim(cols))
    }

    ghost function HiddenSet(): set<Pos>
      reads this
    {
      Marked(hidden)
    }

    ghost function FlaggedSet(): set<Pos>
      reads this
    {
      Marked(flagged)
    }

    /** A `rows` x `cols` board of grey tiles, every one covering its cell. */
    constructor (rows: int, cols: int, grid: Grid)
      requires grid.Valid() && grid.rows == rows && grid.cols == cols
      ensures this.rows == rows && this.cols == cols && this.grid == grid
      ensures Valid()
      ensures HiddenSet() == Cells(Dim(rows), Dim(cols)) && FlaggedSet() == {}
    {
      this.rows := rows;
      this.cols := cols;
      this.grid := grid;
      var h: seq<seq<bool>> := [];
      var f: seq<seq<bool>> := [];
      var i := 0;
      while i < rows
        invariant 0 <= i <= Dim(rows)
        invariant Shaped(h, i, Dim(cols)) && Shaped(f, i, Dim(cols))
        invariant forall r, c | 0 <= r < i && 0 <= c < Dim(cols) :: h[r][c] && !f[r][c]
      {
        var hiddenRow: seq<bool> := [];
        var flagRow: seq<bool> := [];
        var j := 0;
        while j < cols
          invariant 0 <= j <= Dim(cols)
          invariant |hiddenRow| == j && |flagRow| == j
          invariant forall c | 0 <= c < j :: hiddenRow[c] && !flagRow[c]
        {
          hiddenRow := hiddenRow + [true];
          flagRow := flagRow + [false];
          j := j + 1;
        }
        h := h + [hiddenRow];
        f := f + [flagRow];
        i := i + 1;
      }
      hidden := h;
      flagged := f;
      new;
      CellsIff(Dim(rows), Dim(cols));
      forall p ensures p in HiddenSet() <==> p in Cells(Dim(rows), Dim(cols)) {
        MarkedIff(hidden, p);
      }
      forall p ensures p !in FlaggedSet() {
        MarkedIff(flagged, p);
      }
    }

    /** Uncovers a cell and clears its flag; when the cell holds 0, every neighbour that is on
        the board and still covered is revealed in turn, flagged or not. Outside the board it
        fails and changes nothing. */
    method Reveal(row: int, col: int) returns (out: Outcome)
      requires Valid()
      modifies this
      ensures Valid()
      ensures out == if grid.InBounds(row, col) then Pass else Fail(OutOfBounds(row, col))
      ensures out.Pass? ==> HiddenSet() == Visit(grid.arr, old(HiddenSet()), (row, col))
      ensures out.Pass? ==> FlaggedSet() == old(FlaggedSet()) - (old(HiddenSet()) - HiddenSet()) - {(row, col)}
      ensures out.Pass? && !IsZero(grid.arr, (row, col)) ==>
        HiddenSet() == old(HiddenSet()) - {(row, col)} && FlaggedSet() == old(FlaggedSet()) - {(row, col)}
      ensures out.Fail? ==> hidden == old(hidden) && flagged == old(flagged)
      decreases HiddenSet(), if (row, col) in HiddenSet() then 0 else 5, 0
    {
      var value := grid.GetValue(row, col);
      if value.Err? {
        return Fail(value.error);
      }
      MarkedAssign(hidden, (row, col), false);
      MarkedAssign(flagged, (row, col), false);
      hidden := Assign(hidden, (row, col), false);
      flagged := Assign(flagged, (row, col), false);
      if value == Ok(Count(0)) {
        RevealNeighbours(row, col);
      }
      return Pass;
    }

    /** The neighbour tests of `reveal`: its own row, then the row above and the row below
        when they exist. */
    method RevealNeighbours(row: int, col: int)
      requires Valid()
      modifies this
      ensures Valid()
      ensures HiddenSet() == Sweep(grid.arr, old(HiddenSet()), Around((row, col)))
      ensures FlaggedSet() == old(FlaggedSet()) - (old(HiddenSet()) - HiddenSet())
      decreases HiddenSet(), 4, 0
    {
      ghost var g, H1 := grid.arr, HiddenSet();
      ghost var sides, above, below := [(row, col - 1), (row, col + 1)],
        [(row - 1, col), (row - 1, col - 1), (row - 1, col + 1)],
        [(row + 1, col), (row + 1, col - 1), (row + 1, col + 1)];
      // the row of the cell itself always exists
      RevealSides(row, col);
      ghost var H2 := HiddenSet();
      RevealAcross(row - 1, col);
      ghost var H3 := HiddenSet();
      RevealAcross(row + 1, col);
      RemovedChain(FlaggedSet(), H1, H2, H3, HiddenSet());
      assert Around((row, col)) == sides + above + below;
      SweepAppend(g, H1, sides + above, below);
      SweepAppend(g, H1, sides, above);
    }

    /** The left and right neighbours in row `r`, each revealed if on the board and covered. */
    method RevealSides(r: int, col: int)
      requires Valid()
      modifies this
      ensures Valid()
      ensures HiddenSet() == Sweep(grid.arr, old(HiddenSet()), [(r, col - 1), (r, col + 1)])
      ensures FlaggedSet() == old(FlaggedSet()) - (old(HiddenSet()) - HiddenSet())
      decreases HiddenSet(), 2, 0
    {
      ghost var g, H0 := grid.arr, HiddenSet();
      RevealIfHidden(r, col - 1);
      RevealIfHidden(r, col + 1);
      assert Sweep(g, H0, [(r, col - 1), (r, col + 1)])
          == Sweep(g, Step(g, H0, (r, col - 1)), [(r, col + 1)]);
    }

    /** One row block above or below the cell: when row `r` exists, columns `col`, `col - 1`
        and `col + 1` of it. */
    method RevealAcross(r: int, col: int)
      requires Valid()
      modifies this
      ensures Valid()
      ensures HiddenSet() == Sweep(grid.arr, old(HiddenSet()), [(r, col), (r, col - 1), (r, col + 1)])
      ensures FlaggedSet() == old(FlaggedSet()) - (old(HiddenSet()) - HiddenSet())
      decreases HiddenSet(), 3, 0
    {
      ghost var g, H0 := grid.arr, HiddenSet();
      if 0 <= r < |hidden| {
        RevealIfHidden(r, col);
        RevealSides(r, col);
        SweepAppend(g, H0, [(r, col)], [(r, col - 1), (r, col + 1)]);
        assert [(r, col)] + [(r, col - 1), (r, col + 1)] == [(r, col), (r, col - 1), (r, col + 1)];
      } else {
        SweepOffGrid(g, H0, [(r, col), (r, col - 1), (r, col + 1)]);
      }
    }

    /** One neighbour test of `reveal`: reveal (r, c) if it is on the board and still covered. */
    method RevealIfHidden(r: int, c: int)
      requires Valid()
      modifies this
      ensures Valid()
      ensures HiddenSet() == Step(grid.arr, old(HiddenSet()), (r, c))
      ensures FlaggedSet() == old(FlaggedSet()) - (old(HiddenSet()) - HiddenSet())
      decreases HiddenSet(), 1, 0
    {
      MarkedIff(hidden, (r, c));
      if 0 <= r < |hidden| && 0 <= c < |hidden[r]| && hidden[r][c] {
        var out := Reveal(r, c);
      }
    }

    /** Paints a tile red, or back to grey when it is red already. Outside the board it fails
        and changes nothing; it never touches the covering or the grid. */
    method Flag(row: int, col: int) returns (out: Outcome)
      requires Valid()
      modifies this
      ensures Valid()
      ensures out == if grid.InBounds(row, col) then Pass else Fail(OutOfBounds(row, col))
      ensures hidden == old(hidden)
      ensures out.Pass? ==> flagged == Toggle(old(flagged), (row, col))
      ensures out.Fail? ==> flagged == old(flagged)
    {
      if row < 0 || row >= |flagged| || col < 0 || col >= |flagged[row]| {
        return Fail(OutOfBounds(row, col));
      }
      flagged := Toggle(flagged, (row, col));
      return Pass;
    }
  }
}
