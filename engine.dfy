/** The simulation object: the collision lookup array, the grid and the scratch
    grid of propagation, and the operations that initialise and advance them. */
module Engine {
  import opened Cell
  import opened Tables
  import opened Lattice

  /** Side of the square grid. */
  const SIZE: nat := 384

  /** Rows and columns [ObstacleLow, ObstacleHigh) form the block forced full at start. */
  const ObstacleLow: nat := 50
  const ObstacleHigh: nat := 150

  predicate InObstacle(i: int, j: int) {
    ObstacleLow <= i < ObstacleHigh && ObstacleLow <= j < ObstacleHigh
  }

  /** The contents of a 2-D array as a grid value. */
  ghost function Snapshot(a: array2<Byte>): (g: Grid)
    reads a
    requires a.Length0 == a.Length1
    ensures IsGrid(g, a.Length0)
    ensures forall i, j :: 0 <= i < a.Length0 && 0 <= j < a.Length1 ==> g[i][j] == a[i, j]
  {
    seq(a.Length0, i reads a requires 0 <= i < a.Length0 =>
      seq(a.Length1, j reads a requires 0 <= j < a.Length1 => a[i, j]))
  }

  /** One random draw in [0, 13) per cell, in the order the initialisation visits them. */
  predicate IsDraws(draws: seq<seq<int>>) {
    |draws| == SIZE &&
    forall i :: 0 <= i < SIZE ==>
      |draws[i]| == SIZE && forall j :: 0 <= j < SIZE ==> 0 <= draws[i][j] < 13
  }

  /** What the random fill stores in cell (i, j): its draw, or 0 on the ring. */
  function FilledCell(draws: seq<seq<int>>, i: nat, j: nat): Byte
    requires IsDraws(draws) && i < SIZE && j < SIZE
  {
    if OnRing(SIZE, i, j) then 0 else draws[i][j] as Byte
  }

  /** What initialisation stores in cell (i, j). */
  function InitialCell(draws: seq<seq<int>>, i: nat, j: nat): Byte
    requires IsDraws(draws) && i < SIZE && j < SIZE
  {
    if InObstacle(i, j) then 15 else FilledCell(draws, i, j)
  }

  /** The grid before the first tick: the ring is empty, the obstacle block is full,
      and every other cell holds its draw, a state of at most three particles
      out of 0..12. */
  function Initial(draws: seq<seq<int>>): (g: Grid)
    requires IsDraws(draws)
    ensures IsGrid(g, SIZE) && InRange(g)
    ensures forall i, j :: 0 <= i < SIZE && 0 <= j < SIZE && OnRing(SIZE, i, j) ==> g[i][j] == 0
    ensures forall i, j :: 0 <= i < SIZE && 0 <= j < SIZE && InObstacle(i, j) ==> g[i][j] == 15
    ensures forall i, j :: 0 <= i < SIZE && 0 <= j < SIZE && !OnRing(SIZE, i, j) && !InObstacle(i, j) ==>
      g[i][j] <= 12 && g[i][j] as int == draws[i][j]
  {
    seq(SIZE, i requires 0 <= i < SIZE => seq(SIZE, j requires 0 <= j < SIZE => InitialCell(draws, i, j)))
  }

  class Simulation {
    /** Collision lookup table, filled by SetupCollision. */
    const lookup: array<Byte>
    /** The current generation. */
    const data: array2<Byte>
    /** Scratch grid into which propagation builds the next generation. */
    const tempdata: array2<Byte>

    /** The shape of the buffers. */
    ghost predicate Valid()
      reads this
    {
      lookup.Length == 16 &&
      data.Length0 == SIZE && data.Length1 == SIZE &&
      tempdata.Length0 == SIZE && tempdata.Length1 == SIZE &&
      data != tempdata
    }

    /** The lookup table holds the collision rule. */
    ghost predicate TableReady()
      reads this, lookup
    {
      lookup[..] == CollisionTable
    }

    /** Ready to tick: the lookup table holds the collision rule and every cell is a state. */
    ghost predicate Ready()
      reads this, lookup, data
    {
      Valid() && TableReady() &&
      forall i, j :: 0 <= i < SIZE && 0 <= j < SIZE ==> IsState(data[i, j])
    }

    /** Field initialisers: all three arrays start out zero. */
    constructor ()
      ensures Valid() && fresh(lookup) && fresh(data) && fresh(tempdata)
      ensures lookup[..] == seq(16, _ => 0)
      ensures Snapshot(data) == seq(SIZE, _ => seq(SIZE, _ => 0))
      ensures Snapshot(tempdata) == seq(SIZE, _ => seq(SIZE, _ => 0))
    {
      lookup := new Byte[16](_ => 0);
      data := new Byte[SIZE, SIZE]((_, _) => 0);
      tempdata := new Byte[SIZE, SIZE]((_, _) => 0);
      new;
      GridExt(Snapshot(data), seq(SIZE, _ => seq(SIZE, _ => 0)), SIZE);
      GridExt(Snapshot(tempdata), seq(SIZE, _ => seq(SIZE, _ => 0)), SIZE);
    }

    /** Fills the lookup table entry by entry. */
    method SetupCollision()
      requires Valid()
      modifies lookup
      ensures TableReady()
    {
      lookup[0] := 0;
      lookup[1] := 8;
      lookup[2] := 4;
      lookup[3] := 12;
      lookup[4] := 2;
      lookup[5] := 10;
      lookup[6] := 9;
      lookup[7] := 14;
      lookup[8] := 1;
      lookup[9] := 6;
      lookup[10] := 5;
      lookup[11] := 13;
      lookup[12] := 3;
      lookup[13] := 11;
      lookup[14] := 7;
      lookup[15] := 15;
    }

    /** Random fill with an empty ring, then the lookup table, then the obstacle
        block: the grid before the first tick. */
    method Start(draws: seq<seq<int>>)
      requires Valid() && IsDraws(draws)
      modifies lookup, data
      ensures Ready()
      ensures Snapshot(data) == Initial(draws)
    {
      for i := 0 to SIZE
        modifies data
        invariant forall i', j' :: 0 <= i' < i && 0 <= j' < SIZE ==> data[i', j'] == FilledCell(draws, i', j')
      {
        FillRow(draws, i);
      }
      SetupCollision();
      for i := ObstacleLow to ObstacleHigh
        modifies data
        invariant forall i', j' :: 0 <= i' < SIZE && 0 <= j' < SIZE ==>
          data[i', j'] == if InObstacle(i', j') && i' < i then 15 else FilledCell(draws, i', j')
      {
        ObstacleRow(i);
      }
      GridExt(Snapshot(data), Initial(draws), SIZE);
    }

    /** Row i of the random fill. */
    method FillRow(draws: seq<seq<int>>, i: nat)
      requires Valid() && IsDraws(draws) && i < SIZE
      modifies data
      ensures forall j' :: 0 <= j' < SIZE ==> data[i, j'] == FilledCell(draws, i, j')
      ensures forall i', j' :: 0 <= i' < SIZE && i' != i && 0 <= j' < SIZE ==> data[i', j'] == old(data[i', j'])
    {
      for j := 0 to SIZE
        invariant forall j' :: 0 <= j' < j ==> data[i, j'] == FilledCell(draws, i, j')
        invariant forall i', j' :: 0 <= i' < SIZE && i' != i && 0 <= j' < SIZE ==> data[i', j'] == old(data[i', j'])
      {
        var value: Byte := draws[i][j] as Byte;
        if i == 0 || j == 0 || i == SIZE - 1 || j == SIZE - 1 {
          value := 0;
        }
        data[i, j] := value;
      }
    }

    /** Row i of the obstacle block. */
    method ObstacleRow(i: nat)
      requires Valid() && ObstacleLow <= i < ObstacleHigh
      modifies data
      ensures forall j' :: 0 <= j' < SIZE ==> data[i, j'] == if InObstacle(i, j') then 15 else old(data[i, j'])
      ensures forall i', j' :: 0 <= i' < SIZE && i' != i && 0 <= j' < SIZE ==> data[i', j'] == old(data[i', j'])
    {
      for j := ObstacleLow to ObstacleHigh
        invariant forall j' :: 0 <= j' < SIZE ==>
          data[i, j'] == if ObstacleLow <= j' < j then 15 else old(data[i, j'])
        invariant forall i', j' :: 0 <= i' < SIZE && i' != i && 0 <= j' < SIZE ==> data[i', j'] == old(data[i', j'])
      {
        data[i, j] := 15;
      }
    }

    /** Collision in place: every interior cell goes through the lookup table and
        the outer ring is left alone. */
    method Collision()
      requires Ready()
      modifies data
      ensures Ready()
      ensures Snapshot(data) == Collided(old(Snapshot(data)))
    {
      ghost var g := Snapshot(data);
      for i := 0 to SIZE
        invariant Ready()
        invariant forall i', j' :: 0 <= i' < SIZE && 0 <= j' < SIZE ==>
          data[i', j'] == if i' < i then CollideCell(SIZE, i', j', g[i'][j']) else g[i'][j']
      {
        CollideRow(i);
      }
      GridExt(Snapshot(data), Collided(g), SIZE);
    }

    /** Row i of collision. */
    method CollideRow(i: nat)
      requires Ready() && i < SIZE
      modifies data
      ensures Ready()
      ensures forall j' :: 0 <= j' < SIZE ==> data[i, j'] == CollideCell(SIZE, i, j', old(data[i, j']))
      ensures forall i', j' :: 0 <= i' < SIZE && i' != i && 0 <= j' < SIZE ==> data[i', j'] == old(data[i', j'])
    {
      for j := 0 to SIZE
        invariant forall j' :: 0 <= j' < SIZE ==> IsState(data[i, j'])
        invariant forall j' :: 0 <= j' < SIZE ==>
          data[i, j'] == if j' < j then CollideCell(SIZE, i, j', old(data[i, j'])) else old(data[i, j'])
        invariant forall i', j' :: 0 <= i' < SIZE && i' != i && 0 <= j' < SIZE ==> data[i', j'] == old(data[i', j'])
      {
        if i == 0 || j == 0 || i == SIZE - 1 || j == SIZE - 1 {
          data[i, j] := data[i, j];
        } else {
          TableEntry(data[i, j]);
          data[i, j] := lookup[data[i, j] as int];
        }
      }
    }

    /** Propagation: the next generation is built cell by cell into `tempdata`
        from `data`, with the four contribution variables carried across cells
        and rows, and then copied back into `data`. */
    method Propagation()
      requires Ready()
      modifies data, tempdata
      ensures Ready()
      ensures Snapshot(data) == Propagated(old(Snapshot(data)))
      ensures Snapshot(tempdata) == Snapshot(data)
    {
      ghost var g := Snapshot(data);
      ghost var next := Propagated(g);
      var upByte: Byte, downByte: Byte, leftByte: Byte, rightByte: Byte := 0, 0, 0, 0;
      for i := 0 to SIZE
        modifies tempdata
        invariant i < SIZE ==> Carry(upByte, downByte, leftByte, rightByte) == CarryBefore(g, i, 0)
        invariant forall i', j' :: 0 <= i' < i && 0 <= j' < SIZE ==> tempdata[i', j'] == next[i'][j']
      {
        upByte, downByte, leftByte, rightByte := PropagateRow(g, next, i, upByte, downByte, leftByte, rightByte);
      }
      for i := 0 to SIZE
        modifies data
        invariant forall i', j' :: 0 <= i' < SIZE && 0 <= j' < SIZE ==> tempdata[i', j'] == next[i'][j']
        invariant forall i', j' :: 0 <= i' < i && 0 <= j' < SIZE ==> data[i', j'] == next[i'][j']
      {
        CopyRow(i);
      }
      GridExt(Snapshot(data), next, SIZE);
      GridExt(Snapshot(tempdata), next, SIZE);
    }

    /** Row i of the first propagation loop: the four contribution variables come
        in holding what the previous row left and go out holding what this row
        leaves. */
    method PropagateRow(ghost g: Grid, ghost next: Grid, i: nat, up0: Byte, down0: Byte, left0: Byte, right0: Byte)
      returns (upByte: Byte, downByte: Byte, leftByte: Byte, rightByte: Byte)
      requires Valid() && g == Snapshot(data) && next == Propagated(g) && i < SIZE
      requires Carry(up0, down0, left0, right0) == CarryBefore(g, i, 0)
      modifies tempdata
      ensures Carry(upByte, downByte, leftByte, rightByte) == CarryBefore(g, i, SIZE)
      ensures forall j' :: 0 <= j' < SIZE ==> tempdata[i, j'] == next[i][j']
      ensures forall i', j' :: 0 <= i' < SIZE && i' != i && 0 <= j' < SIZE ==> tempdata[i', j'] == old(tempdata[i', j'])
    {
      upByte, downByte, leftByte, rightByte := up0, down0, left0, right0;
      for j := 0 to SIZE
        invariant Carry(upByte, downByte, leftByte, rightByte) == CarryBefore(g, i, j)
        invariant forall j' :: 0 <= j' < j ==> tempdata[i, j'] == next[i][j']
        invariant forall i', j' :: 0 <= i' < SIZE && i' != i && 0 <= j' < SIZE ==> tempdata[i', j'] == old(tempdata[i', j'])
      {
        ghost var before := Carry(upByte, downByte, leftByte, rightByte);
        upByte, downByte, leftByte, rightByte := PropagateCell(g, i, j, upByte, downByte, leftByte, rightByte);
        CellStep(g, next, i, j, before, Carry(upByte, downByte, leftByte, rightByte));
      }
    }

    /** Cell (i, j) of the first propagation loop: each contribution variable is
        refreshed from its neighbour when there is one, and the cell of the next
        generation is their union. */
    method PropagateCell(ghost g: Grid, i: nat, j: nat, up0: Byte, down0: Byte, left0: Byte, right0: Byte)
      returns (upByte: Byte, downByte: Byte, leftByte: Byte, rightByte: Byte)
      requires Valid() && g == Snapshot(data) && i < SIZE && j < SIZE
      modifies tempdata
      ensures Carry(upByte, downByte, leftByte, rightByte) == Visit(g, Carry(up0, down0, left0, right0), i, j)
      ensures tempdata[i, j] == Value(Carry(upByte, downByte, leftByte, rightByte))
      ensures forall i', j' :: 0 <= i' < SIZE && 0 <= j' < SIZE && (i', j') != (i, j) ==> tempdata[i', j'] == old(tempdata[i', j'])
    {
      upByte, downByte, leftByte, rightByte := up0, down0, left0, right0;
      if i != SIZE - 1 {
        upByte := (data[i + 1, j] & UpMask) << 3;
      }
      if i != 0 {
        downByte := (data[i - 1, j] & DownMask) >> 3;
      }
      if j != 0 {
        leftByte := (data[i, j - 1] & LeftMask) << 1;
      }
      if j != SIZE - 1 {
        rightByte := (data[i, j + 1] & RightMask) >> 1;
      }
      var value := upByte | downByte | leftByte | rightByte;
      tempdata[i, j] := value;
    }

    /** Row i of the second propagation loop. */
    method CopyRow(i: nat)
      requires Valid() && i < SIZE
      modifies data
      ensures forall j' :: 0 <= j' < SIZE ==> data[i, j'] == tempdata[i, j']
      ensures forall i', j' :: 0 <= i' < SIZE && i' != i && 0 <= j' < SIZE ==> data[i', j'] == old(data[i', j'])
    {
      for j := 0 to SIZE
        invariant forall j' :: 0 <= j' < j ==> data[i, j'] == tempdata[i, j']
        invariant forall i', j' :: 0 <= i' < SIZE && i' != i && 0 <= j' < SIZE ==> data[i', j'] == old(data[i', j'])
      {
        data[i, j] := tempdata[i, j];
      }
    }

    /** One timer tick: one collision, then one propagation. */
    method Tick()
      requires Ready()
      modifies data, tempdata
      ensures Ready()
      ensures Snapshot(data) == Step(old(Snapshot(data)))
      ensures Snapshot(tempdata) == Snapshot(data)
    {
      Collision();
      Propagation();
    }
  }
}
