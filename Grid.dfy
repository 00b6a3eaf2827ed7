/** The grid of cell contents, updated in place as mines are placed (class `Grid` of game.js). */
module Grids {
  import opened Geometry
  import opened Errors
  import opened MineField

  class Grid {
    const rows: int
    const cols: int
    /** One list per row, one entry per column. */
    var arr: seq<seq<Cell>>

    ghost predicate Valid()
      reads this
    {
      Shaped(arr, Dim(rows), Dim(cols))
    }

    /** The coordinate test the grid's operations guard themselves with. */
    predicate InBounds(row: int, col: int) {
      0 <= row < rows && 0 <= col < cols
    }

    /** A `rows` x `cols` grid whose every cell holds 0. */
    constructor (rows: int, cols: int)
      ensures this.rows == rows && this.cols == cols
      ensures Valid() && AllZero(arr)
      ensures Consistent(arr) && Mines(arr) == {}
    {
      this.rows := rows;
      this.cols := cols;
      var a: seq<seq<Cell>> := [];
      var i := 0;
      while i < rows
        invariant 0 <= i <= Dim(rows)
        invariant Shaped(a, i, Dim(cols)) && AllZero(a)
      {
        var rowArr: seq<Cell> := [];
        var j := 0;
        while j < cols
          invariant 0 <= j <= Dim(cols)
          invariant |rowArr| == j && forall k | 0 <= k < j :: rowArr[k] == Count(0)
        {
          rowArr := rowArr + [Count(0)];
          j := j + 1;
        }
        a := a + [rowArr];
        i := i + 1;
      }
      arr := a;
      new;
      BlankIsConsistent(arr);
    }

    /** The content of a cell; fails outside the grid. */
    function GetValue(row: int, col: int): (v: Result<Cell>)
      reads this
      requires Valid()
      ensures v.Ok? <==> InBounds(row, col)
      ensures v.Err? ==> v.error == OutOfBounds(row, col)
      ensures v.Ok? ==> Inside(arr, (row, col)) && v.value == arr[row][col]
      ensures v == Ok(Mine) <==> IsMine(arr, (row, col))
      ensures v == Ok(Count(0)) <==> IsZero(arr, (row, col))
    {
      if row < 0 || row >= rows || col < 0 || col >= cols then Err(OutOfBounds(row, col))
      else Ok(arr[row][col])
    }

    /** Whether a cell holds a mine; fails outside the grid. */
    function ContainsMine(row: int, col: int): (b: Result<bool>)
      reads this
      requires Valid()
      ensures b.Ok? <==> InBounds(row, col)
      ensures b.Err? ==> b.error == OutOfBounds(row, col)
      ensures b.Ok? ==> (b.value <==> (row, col) in Mines(arr))
    {
      MinesIff(arr, (row, col));
      if row < 0 || row >= rows || col < 0 || col >= cols then Err(OutOfBounds(row, col))
      else
        var v := GetValue(row, col);
        Ok(v.value.Mine?)
    }

    /** Adds one to a cell unless it holds a mine. Outside the grid it fails, through
        `containsMine`, and changes nothing. */
    method IncrementLocation(row: int, col: int) returns (out: Outcome)
      requires Valid()
      modifies this
      ensures Valid()
      ensures out == if InBounds(row, col) then Pass else Fail(OutOfBounds(row, col))
      ensures arr == Incremented(old(arr), (row, col))
    {
      var m := ContainsMine(row, col);
      if m.Err? {
        return Fail(m.error);
      }
      if !m.value {
        arr := arr[row := arr[row][col := Count(arr[row][col].n + 1)]];
      } else {
        assert arr[row][col := Mine] == arr[row];
      }
      return Pass;
    }

    /** The left and right neighbours of column `col` in row `r`, each incremented when on the grid. */
    method IncrementSides(r: int, col: int)
      requires Valid() && 0 <= r < rows
      modifies this
      ensures Valid()
      ensures arr == IncrementedSides(old(arr), r, col)
    {
      var o: Outcome;
      if col > 0 { o := IncrementLocation(r, col - 1); }
      if col < cols - 1 { o := IncrementLocation(r, col + 1); }
    }

    /** One row block of `putMine`: increments row `r` in column `col`, then in `col - 1`
        and `col + 1` when those are on the grid. */
    method IncrementAcross(r: int, col: int)
      requires Valid() && 0 <= r < rows
      modifies this
      ensures Valid()
      ensures arr == IncrementedRow(old(arr), r, col)
    {
      var o := IncrementLocation(r, col);
      IncrementSides(r, col);
    }

    /** Places a mine on a cell and adds one to each on-board neighbour that is not a mine.
        Outside the grid it fails and changes nothing. The cell must not hold a mine already:
        the game's own test for that never fires (see `PutMineAsWritten`). */
    method PutMine(mine: Pos) returns (out: Outcome)
      requires Valid() && !IsMine(arr, mine)
      modifies this
      ensures Valid()
      ensures out == if InBounds(mine.0, mine.1) then Pass else Fail(OutOfBounds(mine.0, mine.1))
      ensures out.Pass? ==> arr == Placed(old(arr), mine)
      ensures out.Fail? ==> arr == old(arr)
    {
      var (row, col) := mine;
      if row < 0 || row >= rows || col < 0 || col >= cols {
        return Fail(OutOfBounds(row, col));
      }
      arr := arr[row := arr[row][col := Mine]];
      IncrementSides(row, col);
      if row > 0 { IncrementAcross(row - 1, col); }
      if row < rows - 1 { IncrementAcross(row + 1, col); }
      return Pass;
    }
  }

  /** `putMine` as the game has it: its test for an existing mine compares the `typeof` of the
      cell with a string that `typeof` never returns, so only the bounds test can fail. */
  function PutMineAsWritten(g: seq<seq<Cell>>, mine: Pos): (r: Result<seq<seq<Cell>>>)
    ensures r.Ok? <==> Inside(g, mine)
    ensures r.Err? ==> r.error == OutOfBounds(mine.0, mine.1)
    ensures r.Ok? ==> MinePut(g, r.value, mine) && Mines(r.value) == Mines(g) + {mine}
  {
    if !Inside(g, mine) then Err(OutOfBounds(mine.0, mine.1))
    else
      PlacedEffect(g, mine);
      PlacedKeepsInvariant(g, mine);
      Ok(Placed(g, mine))
  }

  /** Placing a second mine on a cell breaks the invariant: its neighbours are counted twice.
      On the one-row grid [mine, 1], a second placement at (0, 0) leaves [mine, 2]. */
  lemma RepeatedPlacementMiscounts()
    ensures var g := [[Mine, Count(1)]];
      Consistent(g) && IsMine(g, (0, 0)) &&
      PutMineAsWritten(g, (0, 0)) == Ok([[Mine, Count(2)]]) && !Consistent([[Mine, Count(2)]])
  {
    var g := [[Mine, Count(1)]];
    var g' := [[Mine, Count(2)]];
    assert g[0 := g[0][0 := Mine]] == g by {
      assert g[0][0 := Mine] == g[0];
    }
    assert Incremented(g, (0, -1)) == g;
    var a2 := Incremented(g, (0, 1));
    assert a2 == g' by {
      assert g[0][1 := Bump(g[0][1])] == [Mine, Count(2)];
    }
    assert IncrementedRow(a2, -1, 0) == g';
    assert IncrementedRow(g', 1, 0) == g';
    assert Placed(g, (0, 0)) == g';
    assert Neighbours(g, (0, 1)) == {(0, 0)};
    assert MinesAround(g, (0, 1)) == {(0, 0)};
    assert Neighbours(g', (0, 1)) == {(0, 0)};
    assert MinesAround(g', (0, 1)) == {(0, 0)};
    assert g'[0][1].n != |MinesAround(g', (0, 1))|;
  }

}
