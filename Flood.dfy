/** The flood fill of `reveal`, as functions of the set of hidden cells.
    `Visit(g, H, p)` is the set of cells still hidden after revealing `p` on grid `g`
    when the cells of `H` are hidden; `Sweep` and `Step` are the neighbour loop. */
module Flood {
  import opened Geometry
  import opened MineField

  /** Reveal `p`: it leaves the hidden set and, when it holds 0, each of its neighbours is
      visited in the game's order. The flood does not look at flags. */
  function Visit(g: seq<seq<Cell>>, H: set<Pos>, p: Pos): (r: set<Pos>)
    ensures r <= H - {p}
    decreases H, if p in H then 0 else 2, 0
  {
    if IsZero(g, p) then Sweep(g, H - {p}, Around(p)) else H - {p}
  }

  /** Visit, in order, each cell of `qs` that is on the grid and still hidden. */
  function Sweep(g: seq<seq<Cell>>, H: set<Pos>, qs: seq<Pos>): (r: set<Pos>)
    ensures r <= H
    ensures forall i | 0 <= i < |qs| && Inside(g, qs[i]) :: qs[i] !in r
    decreases H, 1, |qs|
  {
    if qs == [] then H else Sweep(g, Step(g, H, qs[0]), qs[1..])
  }

  /** One neighbour test of `reveal`: recurse only into an on-board cell that is still hidden. */
  function Step(g: seq<seq<Cell>>, H: set<Pos>, q: Pos): (r: set<Pos>)
    ensures r <= H
    ensures Inside(g, q) ==> q !in r
    decreases H, 1, 0
  {
    if Inside(g, q) && q in H then Visit(g, H, q) else H
  }

  /** Sweeping a concatenation is sweeping its two parts one after the other. */
  lemma {:induction false} SweepAppend(g: seq<seq<Cell>>, H: set<Pos>, a: seq<Pos>, b: seq<Pos>)
    ensures Sweep(g, H, a + b) == Sweep(g, Sweep(g, H, a), b)
    decreases |a|
  {
    if a == [] {
      assert a + b == b;
    } else {
      assert (a + b)[0] == a[0] && (a + b)[1..] == a[1..] + b;
      SweepAppend(g, Step(g, H, a[0]), a[1..], b);
    }
  }

  /** A sweep whose cells are all off the grid changes nothing. */
  lemma {:induction false} SweepOffGrid(g: seq<seq<Cell>>, H: set<Pos>, qs: seq<Pos>)
    requires forall i | 0 <= i < |qs| :: !Inside(g, qs[i])
    ensures Sweep(g, H, qs) == H
    decreases |qs|
  {
    if qs != [] {
      SweepOffGrid(g, H, qs[1..]);
    }
  }

  /** A sweep over cells that are all revealed or off the grid changes nothing. */
  lemma {:induction false} SweepNoop(g: seq<seq<Cell>>, H: set<Pos>, qs: seq<Pos>)
    requires forall i | 0 <= i < |qs| && Inside(g, qs[i]) :: qs[i] !in H
    ensures Sweep(g, H, qs) == H
    decreases |qs|
  {
    if qs != [] {
      SweepNoop(g, H, qs[1..]);
    }
  }

  /** Revealing the same cell a second time changes nothing. */
  lemma VisitIdempotent(g: seq<seq<Cell>>, H: set<Pos>, p: Pos)
    ensures Visit(g, Visit(g, H, p), p) == Visit(g, H, p)
  {
    var r := Visit(g, H, p);
    assert r - {p} == r;
    if IsZero(g, p) {
      SweepNoop(g, r, Around(p));
    }
  }

  /** The uncovered 0 cells of `U` have no neighbour left in `r`. */
  ghost predicate Closed(g: seq<seq<Cell>>, U: set<Pos>, r: set<Pos>) {
    forall z | z in U && IsZero(g, z) :: Neighbours(g, z) !! r
  }

  /** Closure: after a reveal, no cell it uncovered that holds 0 has a hidden neighbour left. */
  lemma {:induction false} VisitClosed(g: seq<seq<Cell>>, H: set<Pos>, p: Pos)
    ensures Closed(g, (H + {p}) - Visit(g, H, p), Visit(g, H, p))
    decreases H, if p in H then 0 else 2, 0
  {
    var r := Visit(g, H, p);
    if IsZero(g, p) {
      SweepClosed(g, H - {p}, Around(p));
      forall q | q in Neighbours(g, p) ensures q !in r {
        var i :| 0 <= i < 8 && Around(p)[i] == q;
      }
      assert (H + {p}) - r == {p} + ((H - {p}) - r);
    } else {
      assert (H + {p}) - r == {p};
    }
  }

  lemma {:induction false} SweepClosed(g: seq<seq<Cell>>, H: set<Pos>, qs: seq<Pos>)
    ensures Closed(g, H - Sweep(g, H, qs), Sweep(g, H, qs))
    decreases H, 1, |qs|
  {
    if qs != [] {
      var H1 := Step(g, H, qs[0]);
      var r := Sweep(g, H1, qs[1..]);
      StepClosed(g, H, qs[0]);
      SweepClosed(g, H1, qs[1..]);
      assert H - r == (H - H1) + (H1 - r);
    }
  }

  lemma {:induction false} StepClosed(g: seq<seq<Cell>>, H: set<Pos>, q: Pos)
    ensures Closed(g, H - Step(g, H, q), Step(g, H, q))
    decreases H, 1, 0
  {
    if Inside(g, q) && q in H {
      VisitClosed(g, H, q);
      assert H + {q} == H;
    }
  }

  /** With every 0 cell free of neighbouring mines, a reveal uncovers no mine besides its target. */
  lemma {:induction false} VisitSafe(g: seq<seq<Cell>>, H: set<Pos>, p: Pos)
    requires ZeroSafe(g)
    ensures forall x | x in H - Visit(g, H, p) && x != p :: !IsMine(g, x)
    decreases H, if p in H then 0 else 2, 0
  {
    if IsZero(g, p) {
      forall i | 0 <= i < 8 && Inside(g, Around(p)[i]) ensures !IsMine(g, Around(p)[i]) {
        assert Around(p)[i] in Neighbours(g, p);
      }
      SweepSafe(g, H - {p}, Around(p));
    }
  }

  lemma {:induction false} SweepSafe(g: seq<seq<Cell>>, H: set<Pos>, qs: seq<Pos>)
    requires ZeroSafe(g)
    requires forall i | 0 <= i < |qs| && Inside(g, qs[i]) :: !IsMine(g, qs[i])
    ensures forall x | x in H - Sweep(g, H, qs) :: !IsMine(g, x)
    decreases H, 1, |qs|
  {
    if qs != [] {
      StepSafe(g, H, qs[0]);
      SweepSafe(g, Step(g, H, qs[0]), qs[1..]);
    }
  }

  lemma {:induction false} StepSafe(g: seq<seq<Cell>>, H: set<Pos>, q: Pos)
    requires ZeroSafe(g)
    requires Inside(g, q) ==> !IsMine(g, q)
    ensures forall x | x in H - Step(g, H, q) :: !IsMine(g, x)
    decreases H, 1, 0
  {
    if Inside(g, q) && q in H {
      VisitSafe(g, H, q);
    }
  }

  /** Every cell of `U` is an on-board neighbour of some 0 cell of `Z`. */
  ghost predicate SpreadFrom(g: seq<seq<Cell>>, U: set<Pos>, Z: set<Pos>) {
    forall x | x in U :: exists z :: z in Z && IsZero(g, z) && x in Neighbours(g, z)
  }

  lemma SpreadMono(g: seq<seq<Cell>>, U: set<Pos>, Z: set<Pos>, U': set<Pos>, Z': set<Pos>)
    requires SpreadFrom(g, U, Z) && U' <= U && Z <= Z'
    ensures SpreadFrom(g, U', Z')
  {
    forall x | x in U' ensures exists z :: z in Z' && IsZero(g, z) && x in Neighbours(g, z) {
      var z :| z in Z && IsZero(g, z) && x in Neighbours(g, z);
    }
  }

  lemma SpreadUnion(g: seq<seq<Cell>>, U1: set<Pos>, U2: set<Pos>, Z: set<Pos>)
    requires SpreadFrom(g, U1, Z) && SpreadFrom(g, U2, Z)
    ensures SpreadFrom(g, U1 + U2, Z)
  {
  }

  /** The flood spreads only from 0 cells: every cell a reveal uncovers, other than its target,
      is an on-board neighbour of a 0 cell that the same reveal uncovered (the target included). */
  lemma {:induction false} VisitFromZero(g: seq<seq<Cell>>, H: set<Pos>, p: Pos)
    ensures SpreadFrom(g, (H - Visit(g, H, p)) - {p}, (H + {p}) - Visit(g, H, p))
    decreases H, if p in H then 0 else 2, 0
  {
    var r := Visit(g, H, p);
    if IsZero(g, p) {
      forall i | 0 <= i < 8 && Inside(g, Around(p)[i]) ensures Around(p)[i] in Neighbours(g, p) {
      }
      SweepFromZero(g, H - {p}, Around(p), p);
      assert (H - r) - {p} == (H - {p}) - r;
      SpreadMono(g, (H - {p}) - r, ((H - {p}) - r) + {p}, (H - r) - {p}, (H + {p}) - r);
    } else {
      assert (H - r) - {p} == {};
    }
  }

  /** The neighbour tests of the 0 cell `z0` uncover only cells next to `z0` or next to a
      0 cell they uncovered. */
  lemma {:induction false} SweepFromZero(g: seq<seq<Cell>>, H: set<Pos>, qs: seq<Pos>, z0: Pos)
    requires IsZero(g, z0)
    requires forall i | 0 <= i < |qs| && Inside(g, qs[i]) :: qs[i] in Neighbours(g, z0)
    ensures SpreadFrom(g, H - Sweep(g, H, qs), (H - Sweep(g, H, qs)) + {z0})
    decreases H, 1, |qs|
  {
    if qs != [] {
      var H1 := Step(g, H, qs[0]);
      var r := Sweep(g, H1, qs[1..]);
      var Z := (H - r) + {z0};
      StepFromZero(g, H, qs[0], z0);
      SweepFromZero(g, H1, qs[1..], z0);
      SpreadMono(g, H - H1, (H - H1) + {z0}, H - H1, Z);
      SpreadMono(g, H1 - r, (H1 - r) + {z0}, H1 - r, Z);
      SpreadUnion(g, H - H1, H1 - r, Z);
      assert H - r == (H - H1) + (H1 - r);
    }
  }

  lemma {:induction false} StepFromZero(g: seq<seq<Cell>>, H: set<Pos>, q: Pos, z0: Pos)
    requires IsZero(g, z0)
    requires Inside(g, q) ==> q in Neighbours(g, z0)
    ensures SpreadFrom(g, H - Step(g, H, q), (H - Step(g, H, q)) + {z0})
    decreases H, 1, 0
  {
    if Inside(g, q) && q in H {
      var r := Visit(g, H, q);
      var Z := (H - r) + {z0};
      VisitFromZero(g, H, q);
      assert H + {q} == H;
      SpreadMono(g, (H - r) - {q}, H - r, (H - r) - {q}, Z);
      assert SpreadFrom(g, {q}, Z) by {
        assert z0 in Z;
      }
      SpreadUnion(g, (H - r) - {q}, {q}, Z);
      assert H - r == ((H - r) - {q}) + {q};
    } else {
      assert H - Step(g, H, q) == {};
    }
  }

  /** A walk through the cells of `U` in which every step leaves a 0 cell for one of its
      on-board neighbours: the only way the flood moves on. */
  ghost predicate ZeroPath(g: seq<seq<Cell>>, U: set<Pos>, path: seq<Pos>) {
    |path| >= 1 && (forall i | 0 <= i < |path| :: path[i] in U) &&
    forall i | 0 <= i < |path| - 1 :: IsZero(g, path[i]) && path[i + 1] in Neighbours(g, path[i])
  }

  /** Every cell of `T` is the end of a zero path through `U` that starts at `p`. */
  ghost predicate Reaches(g: seq<seq<Cell>>, U: set<Pos>, p: Pos, T: set<Pos>) {
    forall x | x in T :: exists path :: ZeroPath(g, U, path) && path[0] == p && path[|path| - 1] == x
  }

  lemma ReachesMono(g: seq<seq<Cell>>, U: set<Pos>, p: Pos, T: set<Pos>, U': set<Pos>, T': set<Pos>)
    requires Reaches(g, U, p, T) && U <= U' && T' <= T
    ensures Reaches(g, U', p, T')
  {
    forall x | x in T' ensures exists path :: ZeroPath(g, U', path) && path[0] == p && path[|path| - 1] == x {
      var path :| ZeroPath(g, U, path) && path[0] == p && path[|path| - 1] == x;
      assert ZeroPath(g, U', path);
    }
  }

  /** A 0 cell `z0` next to `q` reaches everything `q` reaches, one step further back. */
  lemma ReachesPrefix(g: seq<seq<Cell>>, U: set<Pos>, q: Pos, T: set<Pos>, z0: Pos, U': set<Pos>)
    requires Reaches(g, U, q, T) && IsZero(g, z0) && q in Neighbours(g, z0) && U + {z0} <= U'
    ensures Reaches(g, U', z0, T)
  {
    forall x | x in T ensures exists path :: ZeroPath(g, U', path) && path[0] == z0 && path[|path| - 1] == x {
      var path :| ZeroPath(g, U, path) && path[0] == q && path[|path| - 1] == x;
      var longer := [z0] + path;
      assert forall i | 1 <= i < |longer| :: longer[i] == path[i - 1];
      assert ZeroPath(g, U', longer);
    }
  }

  /** Reachability: every cell a reveal uncovers is reached from the cell clicked by a path
      of uncovered cells that steps only out of 0 cells. */
  lemma {:induction false} VisitReach(g: seq<seq<Cell>>, H: set<Pos>, p: Pos)
    ensures Reaches(g, (H + {p}) - Visit(g, H, p), p, (H + {p}) - Visit(g, H, p))
    decreases H, if p in H then 0 else 2, 0
  {
    var r := Visit(g, H, p);
    var U := (H + {p}) - r;
    assert ZeroPath(g, U, [p]);
    if IsZero(g, p) {
      forall i | 0 <= i < 8 && Inside(g, Around(p)[i]) ensures Around(p)[i] in Neighbours(g, p) {
      }
      SweepReach(g, H - {p}, Around(p), p);
      assert U == ((H - {p}) - r) + {p};
    } else {
      assert U == {p};
    }
  }

  /** The cells the neighbour tests of the 0 cell `z0` uncover are reached from `z0`. */
  lemma {:induction false} SweepReach(g: seq<seq<Cell>>, H: set<Pos>, qs: seq<Pos>, z0: Pos)
    requires IsZero(g, z0)
    requires forall i | 0 <= i < |qs| && Inside(g, qs[i]) :: qs[i] in Neighbours(g, z0)
    ensures Reaches(g, (H - Sweep(g, H, qs)) + {z0}, z0, H - Sweep(g, H, qs))
    decreases H, 1, |qs|
  {
    if qs != [] {
      var H1 := Step(g, H, qs[0]);
      var r := Sweep(g, H1, qs[1..]);
      var U := (H - r) + {z0};
      StepReach(g, H, qs[0], z0);
      SweepReach(g, H1, qs[1..], z0);
      ReachesMono(g, (H - H1) + {z0}, z0, H - H1, U, H - H1);
      ReachesMono(g, (H1 - r) + {z0}, z0, H1 - r, U, H1 - r);
      assert H - r == (H - H1) + (H1 - r);
    }
  }

  lemma {:induction false} StepReach(g: seq<seq<Cell>>, H: set<Pos>, q: Pos, z0: Pos)
    requires IsZero(g, z0)
    requires Inside(g, q) ==> q in Neighbours(g, z0)
    ensures Reaches(g, (H - Step(g, H, q)) + {z0}, z0, H - Step(g, H, q))
    decreases H, 1, 0
  {
    if Inside(g, q) && q in H {
      var r := Visit(g, H, q);
      VisitReach(g, H, q);
      assert H + {q} == H;
      ReachesPrefix(g, H - r, q, H - r, z0, (H - r) + {z0});
    } else {
      assert H - Step(g, H, q) == {};
    }
  }

  /** What revealing `p` over the covered cells `H` must leave covered, stated without the
      neighbour order: nothing new is covered and `p` is uncovered, no uncovered 0 cell keeps a
      covered neighbour, and every uncovered cell is reached from `p` through 0 cells. */
  ghost predicate Flooded(g: seq<seq<Cell>>, H: set<Pos>, p: Pos, r: set<Pos>) {
    r <= H - {p} && Closed(g, (H + {p}) - r, r) && Reaches(g, (H + {p}) - r, p, (H + {p}) - r)
  }

  /** The flood is exactly the region of `p`: `Visit` is the one and only set of covered cells
      that `Flooded` allows, so it uncovers the 0 cells connected to `p` and their borders. */
  lemma VisitIsFlooded(g: seq<seq<Cell>>, H: set<Pos>, p: Pos, r: set<Pos>)
    ensures Flooded(g, H, p, r) <==> r == Visit(g, H, p)
  {
    VisitClosed(g, H, p);
    VisitReach(g, H, p);
    if Flooded(g, H, p, r) {
      FloodedUnique(g, H, p, r, Visit(g, H, p));
    }
  }

  /** Two sets of covered cells that both satisfy `Flooded` are equal. */
  lemma FloodedUnique(g: seq<seq<Cell>>, H: set<Pos>, p: Pos, r1: set<Pos>, r2: set<Pos>)
    requires Flooded(g, H, p, r1) && Flooded(g, H, p, r2)
    ensures r1 == r2
  {
    FloodedCovers(g, H, p, r1, r2);
    FloodedCovers(g, H, p, r2, r1);
    assert r1 == (H + {p}) - ((H + {p}) - r1);
    assert r2 == (H + {p}) - ((H + {p}) - r2);
  }

  /** Everything one flood uncovers, another uncovers too: each of its paths stays inside. */
  lemma FloodedCovers(g: seq<seq<Cell>>, H: set<Pos>, p: Pos, r1: set<Pos>, r2: set<Pos>)
    requires Flooded(g, H, p, r1) && Flooded(g, H, p, r2)
    ensures (H + {p}) - r1 <= (H + {p}) - r2
  {
    var U1, U2 := (H + {p}) - r1, (H + {p}) - r2;
    forall x | x in U1 ensures x in U2 {
      var path :| ZeroPath(g, U1, path) && path[0] == p && path[|path| - 1] == x;
      PathStays(g, U1, U2, r2, path, |path| - 1);
    }
  }

  /** A zero path that starts in `U2` cannot leave it for `r2` when the 0 cells of `U2` have
      no neighbour in `r2`. */
  lemma {:induction false} PathStays(g: seq<seq<Cell>>, U1: set<Pos>, U2: set<Pos>, r2: set<Pos>, path: seq<Pos>, i: nat)
    requires ZeroPath(g, U1, path) && path[0] in U2 && U1 <= U2 + r2 && Closed(g, U2, r2)
    requires i < |path|
    ensures path[i] in U2
  {
    if i > 0 {
      PathStays(g, U1, U2, r2, path, i - 1);
      assert path[i] !in r2 by {
        assert IsZero(g, path[i - 1]) && path[i] in Neighbours(g, path[i - 1]);
      }
    }
  }

  /** On a grid that keeps the adjacency invariant the flood never reaches a mine: the only
      mine a reveal can uncover is the cell clicked. */
  lemma RevealNeverUncoversOtherMine(g: seq<seq<Cell>>, H: set<Pos>, p: Pos)
    requires Consistent(g)
    ensures forall x | x in H - Visit(g, H, p) && x != p :: !IsMine(g, x)
  {
    ConsistentZeroSafe(g);
    VisitSafe(g, H, p);
  }
}
