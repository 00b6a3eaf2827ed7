/** Coordinates on the board, the 8-neighbourhood and sets of cells.
    Every table of the game (the grid of cell contents, the hidden and the
    flag markers) is a list of rows, so a table is a `seq<seq<T>>` here. */
module Geometry {

  /** A cell coordinate (row, col), 0-indexed. */
  type Pos = (int, int)

  /** Number of rows (or columns) a construction loop `for (i = 0; i < n; i++)`
      produces: none when `n` is negative. */
  function Dim(n: int): (d: nat)
    ensures n >= 0 ==> d == n
    ensures n < 0 ==> d == 0
  {
    if n < 0 then 0 else n
  }

  /** `t` has `rows` rows of `cols` entries each. */
  predicate Shaped<T>(t: seq<seq<T>>, rows: nat, cols: nat) {
    |t| == rows && forall r | 0 <= r < |t| :: |t[r]| == cols
  }

  /** `p` indexes an entry of `t`. */
  predicate Inside<T>(t: seq<seq<T>>, p: Pos) {
    0 <= p.0 < |t| && 0 <= p.1 < |t[p.0]|
  }

  /** The eight neighbours of `p`, in the order the game visits them:
      left, right, the three above, the three below. */
  function Around(p: Pos): (ns: seq<Pos>)
    ensures |ns| == 8
  {
    var (r, c) := p;
    [(r, c - 1), (r, c + 1),
     (r - 1, c), (r - 1, c - 1), (r - 1, c + 1),
     (r + 1, c), (r + 1, c - 1), (r + 1, c + 1)]
  }

  /** `q` touches `p` (8-connectivity): a different cell at most one row and one column away. */
  predicate Adjacent(p: Pos, q: Pos) {
    p != q && -1 <= q.0 - p.0 <= 1 && -1 <= q.1 - p.1 <= 1
  }

  /** The neighbours of `p` that lie on the board `t`. */
  function Neighbours<T>(t: seq<seq<T>>, p: Pos): set<Pos> {
    set q | q in Around(p) && Inside(t, q)
  }

  /** The eight cells around `p`, as a set. */
  function Ring(p: Pos): set<Pos> {
    set q | q in Around(p)
  }

  lemma RingIsAdjacent(p: Pos, q: Pos)
    ensures q in Ring(p) <==> Adjacent(p, q)
  {
  }

  lemma AroundIsAdjacent(p: Pos, q: Pos)
    ensures q in Around(p) <==> Adjacent(p, q)
  {
  }

  /** On-board neighbourhood is the symmetric adjacency relation restricted to the board. */
  lemma NeighboursIff<T>(t: seq<seq<T>>, p: Pos, q: Pos)
    ensures q in Neighbours(t, p) <==> Inside(t, q) && Adjacent(p, q)
    ensures q in Neighbours(t, p) && Inside(t, p) ==> p in Neighbours(t, q)
  {
    AroundIsAdjacent(p, q);
    AroundIsAdjacent(q, p);
  }

  /** No cell has more than eight neighbours on the board. */
  lemma NeighboursAtMostEight<T>(t: seq<seq<T>>, p: Pos)
    ensures |Neighbours(t, p)| <= 8
  {
    forall q | q in Neighbours(t, p) ensures q in Ring(p) {
      AroundIsAdjacent(p, q);
      RingIsAdjacent(p, q);
    }
    SubsetCard(Neighbours(t, p), Ring(p));
    ElementsCard(Around(p));
  }

  /** A sequence has no more distinct elements than entries. */
  lemma {:induction false} ElementsCard<T>(s: seq<T>)
    ensures |set x | x in s| <= |s|
  {
    if s != [] {
      ElementsCard(s[1..]);
      assert (set x | x in s) == (set x | x in s[1..]) + {s[0]};
    }
  }

  /** The cells of `m` that hold `true`: the hidden cells, or the flagged ones. */
  function Marked(m: seq<seq<bool>>): set<Pos> {
    set r, c | 0 <= r < |m| && 0 <= c < |m[r]| && m[r][c] :: (r, c)
  }

  lemma MarkedIff(m: seq<seq<bool>>, p: Pos)
    ensures p in Marked(m) <==> Inside(m, p) && m[p.0][p.1]
  {
    if Inside(m, p) && m[p.0][p.1] {
      var (r, c) := p;
      assert (r, c) in Marked(m);
    }
  }

  /** `m` with the entry at `p` replaced by `b`. */
  function Assign(m: seq<seq<bool>>, p: Pos, b: bool): (m': seq<seq<bool>>)
    requires Inside(m, p)
    ensures |m'| == |m| && forall r | 0 <= r < |m| :: |m'[r]| == |m[r]|
  {
    m[p.0 := m[p.0][p.1 := b]]
  }

  /** Writing one entry adds that cell to, or removes it from, the marked set, and nothing else. */
  lemma MarkedAssign(m: seq<seq<bool>>, p: Pos, b: bool)
    requires Inside(m, p)
    ensures Marked(Assign(m, p, b)) == if b then Marked(m) + {p} else Marked(m) - {p}
  {
    var m' := Assign(m, p, b);
    forall q
      ensures q in Marked(m') <==> q in (if b then Marked(m) + {p} else Marked(m) - {p})
    {
      MarkedIff(m, q);
      MarkedIff(m', q);
    }
  }

  /** The cells of row `r` with a column in [0, cols). */
  function RowCells(r: int, cols: nat): set<Pos> {
    if cols == 0 then {} else RowCells(r, cols - 1) + {(r, cols - 1)}
  }

  /** Every cell of a `rows` x `cols` board. */
  function Cells(rows: nat, cols: nat): set<Pos> {
    if rows == 0 then {} else Cells(rows - 1, cols) + RowCells(rows - 1, cols)
  }

  lemma {:induction false} RowCellsIff(r: int, cols: nat)
    ensures forall p :: p in RowCells(r, cols) <==> p.0 == r && 0 <= p.1 < cols
  {
    if cols > 0 {
      RowCellsIff(r, cols - 1);
    }
  }

  lemma {:induction false} RowCellsCard(r: int, cols: nat)
    ensures |RowCells(r, cols)| == cols
  {
    if cols > 0 {
      RowCellsCard(r, cols - 1);
      RowCellsIff(r, cols - 1);
      assert (r, cols - 1) !in RowCells(r, cols - 1);
    }
  }

  lemma {:induction false} CellsIff(rows: nat, cols: nat)
    ensures forall p :: p in Cells(rows, cols) <==> 0 <= p.0 < rows && 0 <= p.1 < cols
  {
    if rows > 0 {
      CellsIff(rows - 1, cols);
      RowCellsIff(rows - 1, cols);
    }
  }

  /** The last row of a board shares no cell with the rows above it. */
  lemma LastRowIsNew(rows: nat, cols: nat)
    requires rows > 0
    ensures Cells(rows - 1, cols) * RowCells(rows - 1, cols) == {}
  {
    CellsIff(rows - 1, cols);
    RowCellsIff(rows - 1, cols);
  }

  /** A `rows` x `cols` board has exactly `rows * cols` cells. */
  lemma {:induction false} CellsCard(rows: nat, cols: nat)
    ensures |Cells(rows, cols)| == rows * cols
  {
    if rows > 0 {
      var above, last := Cells(rows - 1, cols), RowCells(rows - 1, cols);
      CellsCard(rows - 1, cols);
      RowCellsCard(rows - 1, cols);
      LastRowIsNew(rows, cols);
      assert |above + last| == |above| + |last|;
      MulSucc(rows, cols);
    }
  }

  lemma MulSucc(a: nat, b: nat)
    requires a > 0
    ensures a * b == (a - 1) * b + b
  {
  }

  lemma SubsetCard<T>(a: set<T>, b: set<T>)
    requires a <= b
    ensures |a| <= |b|
    ensures |a| == |b| ==> a == b
  {
    assert b == a + (b - a);
    assert a * (b - a) == {};
    if |a| == |b| {
      assert |b - a| == 0;
    }
  }
}
