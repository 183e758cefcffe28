/** The HPP automaton on values: a square grid of cell states, the collision
    step, the propagation step exactly as the nested loops compute it (with the
    four contribution variables carried from cell to cell), and the composed
    time step. The imperative simulation in module Engine is proved against
    these functions. */
module Lattice {
  import opened Cell
  import opened Tables

  /** A grid as rows of cells; `g[i][j]` is row i, column j. */
  type Grid = seq<seq<Byte>>

  predicate IsGrid(g: Grid, n: nat) {
    |g| == n && forall i :: 0 <= i < n ==> |g[i]| == n
  }

  predicate InRange(g: Grid) {
    forall i, j :: 0 <= i < |g| && 0 <= j < |g[i]| ==> IsState(g[i][j])
  }

  /** The outer ring of an n-by-n grid. */
  predicate OnRing(n: nat, i: int, j: int) {
    i == 0 || j == 0 || i == n - 1 || j == n - 1
  }

  /** Two grids of the same shape that agree cell by cell are equal. */
  lemma GridExt(a: Grid, b: Grid, n: nat)
    requires IsGrid(a, n) && IsGrid(b, n)
    requires forall i, j :: 0 <= i < n && 0 <= j < n ==> a[i][j] == b[i][j]
    ensures a == b
  {
    forall i | 0 <= i < n
      ensures a[i] == b[i]
    {
      assert forall j :: 0 <= j < n ==> a[i][j] == b[i][j];
    }
  }

  // ---------------------------------------------------------------- collision

  /** What collision does to the cell at (i, j) holding v. */
  function CollideCell(n: nat, i: int, j: int, v: Byte): Byte {
    if OnRing(n, i, j) then v else Collide(v)
  }

  /** One collision step over the whole grid: the ring is left as it is, every
      cell keeps its particle count and stays a state. */
  function Collided(g: Grid): (r: Grid)
    requires IsGrid(g, |g|) && InRange(g)
    ensures IsGrid(r, |g|) && InRange(r)
    ensures forall i, j :: 0 <= i < |g| && 0 <= j < |g| && OnRing(|g|, i, j) ==> r[i][j] == g[i][j]
    ensures forall i, j :: 0 <= i < |g| && 0 <= j < |g| ==> PopCount(r[i][j]) == PopCount(g[i][j])
  {
    var n := |g|;
    var r := seq(n, i requires 0 <= i < n => seq(n, j requires 0 <= j < n => CollideCell(n, i, j, g[i][j])));
    forall i, j | 0 <= i < n && 0 <= j < n
      ensures IsState(r[i][j]) && PopCount(r[i][j]) == PopCount(g[i][j])
    {
      CollideKeepsCount(g[i][j]);
    }
    r
  }

  /** Collision applies the lookup table to every interior cell. */
  lemma CollidedInterior(g: Grid, i: nat, j: nat)
    requires IsGrid(g, |g|) && InRange(g)
    requires i < |g| && j < |g| && !OnRing(|g|, i, j)
    ensures Collided(g)[i][j] == Collide(g[i][j])
  {
  }

  /** The new value of a cell depends on nothing but its own old value (and its position). */
  lemma CollidedLocal(g: Grid, h: Grid, i: nat, j: nat)
    requires IsGrid(g, |g|) && InRange(g) && IsGrid(h, |g|) && InRange(h)
    requires i < |g| && j < |g| && g[i][j] == h[i][j]
    ensures Collided(g)[i][j] == Collided(h)[i][j]
  {
  }

  /** A full cell (such as one of the obstacle block) is still full after collision. */
  lemma CollidedKeepsFull(g: Grid, i: nat, j: nat)
    requires IsGrid(g, |g|) && InRange(g)
    requires i < |g| && j < |g| && g[i][j] == 15
    ensures Collided(g)[i][j] == 15
  {
  }

  /** Two collision steps in a row restore the grid. */
  lemma {:induction false} CollidedTwice(g: Grid)
    requires IsGrid(g, |g|) && InRange(g)
    ensures Collided(Collided(g)) == g
  {
    var n := |g|;
    var c := Collided(g);
    forall i, j | 0 <= i < n && 0 <= j < n
      ensures Collided(c)[i][j] == g[i][j]
    {
      if !OnRing(n, i, j) {
        CollideInvolution(g[i][j]);
      }
    }
    GridExt(Collided(c), g, n);
  }

  // -------------------------------------------------------------- propagation

  /** The four contribution variables of the propagation loop. */
  datatype Carry = Carry(up: Byte, down: Byte, left: Byte, right: Byte)

  const NoCarry := Carry(0, 0, 0, 0)

  /** The cell value the loop builds from the four variables. */
  function Value(c: Carry): Byte {
    c.up | c.down | c.left | c.right
  }

  /** The loop body at cell (i, j): each variable is recomputed from its neighbour
      when that neighbour exists and otherwise keeps the value it had. The up
      flag of the cell below becomes the down flag here, the down flag of the
      cell above the up flag, the left flag of the cell to the left the right
      flag, and the right flag of the cell to the right the left flag. */
  function Visit(g: Grid, c: Carry, i: nat, j: nat): Carry
    requires IsGrid(g, |g|) && i < |g| && j < |g|
  {
    var n := |g|;
    Carry(if i != n - 1 then (g[i + 1][j] & UpMask) << 3 else c.up,
          if i != 0 then (g[i - 1][j] & DownMask) >> 3 else c.down,
          if j != 0 then (g[i][j - 1] & LeftMask) << 1 else c.left,
          if j != n - 1 then (g[i][j + 1] & RightMask) >> 1 else c.right)
  }

  /** The four variables after the loop has visited, in row-major order, every
      cell before (i, j); `j == |g|` stands for "after the whole of row i". */
  function CarryThrough(g: Grid, i: nat, j: nat): Carry
    requires IsGrid(g, |g|) && i < |g| && j <= |g|
    decreases i, j
  {
    if j == 0 then
      if i == 0 then NoCarry else CarryThrough(g, i - 1, |g|)
    else
      Visit(g, CarryThrough(g, i, j - 1), i, j - 1)
  }

  /** The value the propagation loop stores for cell (i, j). */
  function Next(g: Grid, i: nat, j: nat): Byte
    requires IsGrid(g, |g|) && i < |g| && j < |g|
  {
    Value(Visit(g, CarryThrough(g, i, j), i, j))
  }

  /** Reference definition of the four variables when cell (i, j) is built,
      without any loop: where the neighbour exists it is that neighbour's flag;
      where it does not, the variable still holds what the last cell that had
      such a neighbour put there. On the last row that is the up flag of the
      bottom-right cell; in column 0 it is the left flag of the cell two columns
      before the end of the previous row; in the last column it is the cell's
      own right flag; on row 0 no down flag has been read yet. */
  function Contributions(g: Grid, i: nat, j: nat): Carry
    requires IsGrid(g, |g|) && i < |g| && j < |g|
  {
    var n := |g|;
    Carry(if i != n - 1 then (g[i + 1][j] & UpMask) << 3
          else if n >= 2 then (g[n - 1][n - 1] & UpMask) << 3 else 0,
          if i != 0 then (g[i - 1][j] & DownMask) >> 3 else 0,
          if j != 0 then (g[i][j - 1] & LeftMask) << 1
          else if i != 0 && n >= 2 then (g[i - 1][n - 2] & LeftMask) << 1 else 0,
          if j != n - 1 then (g[i][j + 1] & RightMask) >> 1
          else if n >= 2 then (g[i][n - 1] & RightMask) >> 1 else 0)
  }

  /** Reference definition of the four variables just before cell (i, j) is
      visited: what the previous cell in row-major order left in them. */
  function CarryBefore(g: Grid, i: nat, j: nat): Carry
    requires IsGrid(g, |g|) && i < |g| && j <= |g|
  {
    if j > 0 then Contributions(g, i, j - 1)
    else if i > 0 then Contributions(g, i - 1, |g| - 1)
    else NoCarry
  }

  /** One loop body takes the variables from the state before a cell to the
      reference values at that cell. */
  lemma VisitStep(g: Grid, i: nat, j: nat)
    requires IsGrid(g, |g|) && i < |g| && j < |g|
    ensures Visit(g, CarryBefore(g, i, j), i, j) == Contributions(g, i, j)
  {
  }

  /** The same step as the loop body sees it: from the reference state before
      cell (i, j) one visit reaches the reference state before the next cell, and
      the value built is that cell of the propagated grid. */
  lemma CellStep(g: Grid, next: Grid, i: nat, j: nat, before: Carry, after: Carry)
    requires IsGrid(g, |g|) && next == Propagated(g) && i < |g| && j < |g|
    requires before == CarryBefore(g, i, j)
    requires after == Visit(g, before, i, j)
    ensures after == CarryBefore(g, i, j + 1)
    ensures Value(after) == next[i][j]
  {
    VisitStep(g, i, j);
  }

  /** The loop-carried variables agree with the reference definition at every cell. */
  lemma {:induction false} CarryThroughIsCarryBefore(g: Grid, i: nat, j: nat)
    requires IsGrid(g, |g|) && i < |g| && j < |g|
    ensures CarryThrough(g, i, j) == CarryBefore(g, i, j)
    decreases i, j
  {
    var n := |g|;
    if j > 0 {
      CarryThroughIsCarryBefore(g, i, j - 1);
      VisitStep(g, i, j - 1);
    } else if i > 0 {
      CarryThroughIsCarryBefore(g, i - 1, n - 1);
      VisitStep(g, i - 1, n - 1);
    }
  }

  lemma VisitIsContributions(g: Grid, i: nat, j: nat)
    requires IsGrid(g, |g|) && i < |g| && j < |g|
    ensures Visit(g, CarryThrough(g, i, j), i, j) == Contributions(g, i, j)
  {
    CarryThroughIsCarryBefore(g, i, j);
    VisitStep(g, i, j);
  }

  /** Each variable holds either nothing or the single flag it is meant to set. */
  predicate SingleFlags(c: Carry) {
    (c.up == 0 || c.up == DownMask) && (c.down == 0 || c.down == UpMask) &&
    (c.left == 0 || c.left == RightMask) && (c.right == 0 || c.right == LeftMask)
  }

  lemma ContributionsAreFlags(g: Grid, i: nat, j: nat)
    requires IsGrid(g, |g|) && i < |g| && j < |g|
    ensures SingleFlags(Contributions(g, i, j))
    ensures IsState(Value(Contributions(g, i, j)))
  {
  }

  /** The new state of cell (i, j), from the reference definition. */
  lemma NextIsContributions(g: Grid, i: nat, j: nat)
    requires IsGrid(g, |g|) && i < |g| && j < |g|
    ensures Next(g, i, j) == Value(Contributions(g, i, j))
    ensures IsState(Next(g, i, j))
  {
    VisitIsContributions(g, i, j);
    ContributionsAreFlags(g, i, j);
  }

  /** One propagation step: every cell is computed from the grid as it was before
      the step, so no cell sees a neighbour that has already been updated. */
  function Propagated(g: Grid): (r: Grid)
    requires IsGrid(g, |g|)
    ensures IsGrid(r, |g|) && InRange(r)
    ensures forall i, j :: 0 <= i < |g| && 0 <= j < |g| ==> r[i][j] == Value(Contributions(g, i, j))
  {
    var n := |g|;
    var r := seq(n, i requires 0 <= i < n => seq(n, j requires 0 <= j < n => Next(g, i, j)));
    forall i, j | 0 <= i < n && 0 <= j < n
      ensures r[i][j] == Value(Contributions(g, i, j)) && IsState(r[i][j])
    {
      NextIsContributions(g, i, j);
    }
    r
  }

  /** At a cell with all four neighbours the new state is the mirrored flags of
      the neighbours, exactly the four mask-and-shift terms. */
  lemma PropagatedInterior(g: Grid, i: nat, j: nat)
    requires IsGrid(g, |g|) && i < |g| && j < |g| && !OnRing(|g|, i, j)
    ensures Propagated(g)[i][j] ==
      ((g[i + 1][j] & UpMask) << 3) | ((g[i - 1][j] & DownMask) >> 3) |
      ((g[i][j - 1] & LeftMask) << 1) | ((g[i][j + 1] & RightMask) >> 1)
  {
  }

  /** An interior cell of the new grid depends on the old grid only through its
      four neighbours. */
  lemma PropagatedReadsNeighbours(g: Grid, h: Grid, i: nat, j: nat)
    requires IsGrid(g, |g|) && IsGrid(h, |g|) && i < |g| && j < |g| && !OnRing(|g|, i, j)
    requires g[i + 1][j] == h[i + 1][j] && g[i - 1][j] == h[i - 1][j]
    requires g[i][j - 1] == h[i][j - 1] && g[i][j + 1] == h[i][j + 1]
    ensures Propagated(g)[i][j] == Propagated(h)[i][j]
  {
  }

  /** Propagation writes the ring too: a cell of row 0 away from the corners
      takes the up flag of the cell below it as its down flag, so a particle
      moving up from row 1 arrives on the ring. */
  lemma PropagatedTopRowReceives(g: Grid, j: nat)
    requires IsGrid(g, |g|) && |g| >= 3 && 0 < j < |g| - 1
    ensures Propagated(g)[0][j] & DownMask == (g[1][j] & UpMask) << 3
  {
  }

  /** A cell in the last column gets a left flag exactly when it has a right flag
      itself, although there is no cell to its right to send one: the value is
      left over from the cell visited before. */
  lemma PropagatedRightEdgeEcho(g: Grid, i: nat)
    requires IsGrid(g, |g|) && |g| >= 2 && i < |g|
    ensures Propagated(g)[i][|g| - 1] & LeftMask == (g[i][|g| - 1] & RightMask) >> 1
  {
  }

  /** A cell in column 0 below row 0 receives a right flag from row i - 1, column
      n - 2, the last left-neighbour read of the previous row. */
  lemma PropagatedLeftEdgeLeak(g: Grid, i: nat)
    requires IsGrid(g, |g|) && |g| >= 2 && 0 < i < |g|
    ensures Propagated(g)[i][0] & RightMask == (g[i - 1][|g| - 2] & LeftMask) << 1
  {
  }

  /** Every cell of the last row receives a down flag exactly when the bottom-right
      cell holds an up flag. */
  lemma PropagatedLastRowLeak(g: Grid, j: nat)
    requires IsGrid(g, |g|) && |g| >= 2 && j < |g|
    ensures Propagated(g)[|g| - 1][j] & DownMask == (g[|g| - 1][|g| - 1] & UpMask) << 3
  {
  }

  /** No cell of row 0 ever gets an up flag. */
  lemma PropagatedTopRowNoUp(g: Grid, j: nat)
    requires IsGrid(g, |g|) && j < |g|
    ensures Propagated(g)[0][j] & UpMask == 0
  {
  }

  // ------------------------------------------- closed-wall propagation variant

  /** A propagation the program does not compute, in which every missing
      neighbour contributes nothing, as for a closed wall. */
  function WalledContributions(g: Grid, i: nat, j: nat): Carry
    requires IsGrid(g, |g|) && i < |g| && j < |g|
  {
    var n := |g|;
    Carry(if i != n - 1 then (g[i + 1][j] & UpMask) << 3 else 0,
          if i != 0 then (g[i - 1][j] & DownMask) >> 3 else 0,
          if j != 0 then (g[i][j - 1] & LeftMask) << 1 else 0,
          if j != n - 1 then (g[i][j + 1] & RightMask) >> 1 else 0)
  }

  /** Propagation with the closed-wall policy. */
  function PropagatedWalled(g: Grid): (r: Grid)
    requires IsGrid(g, |g|)
    ensures IsGrid(r, |g|) && InRange(r)
    ensures forall i, j :: 0 <= i < |g| && 0 <= j < |g| ==>
      PopCount(r[i][j]) <= PopCount(Propagated(g)[i][j])
  {
    var n := |g|;
    seq(n, i requires 0 <= i < n => seq(n, j requires 0 <= j < n => Value(WalledContributions(g, i, j))))
  }

  /** The program and the closed-wall variant agree on every cell that has four
      neighbours, and the closed-wall variant never adds a flag the program would not. */
  lemma WalledAgreesInside(g: Grid, i: nat, j: nat)
    requires IsGrid(g, |g|) && i < |g| && j < |g|
    ensures !OnRing(|g|, i, j) ==> PropagatedWalled(g)[i][j] == Propagated(g)[i][j]
    ensures PropagatedWalled(g)[i][j] & Propagated(g)[i][j] == PropagatedWalled(g)[i][j]
  {
  }

  // ---------------------------------------------------------------- time step

  /** One tick: a collision step, then a propagation step. */
  function Step(g: Grid): (r: Grid)
    requires IsGrid(g, |g|) && InRange(g)
    ensures IsGrid(r, |g|) && InRange(r)
    ensures forall i, j :: 0 <= i < |g| && 0 <= j < |g| ==>
      r[i][j] == Value(Contributions(Collided(g), i, j))
  {
    Propagated(Collided(g))
  }
}
