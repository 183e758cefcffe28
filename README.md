# HPP lattice gas — a verified model of the simulation core

The HPP program simulates a lattice gas on a 384-by-384 grid. Each cell is a
byte, and its low four bits are direction flags: up `0x01`, left `0x02`,
right `0x04`, down `0x08`. Each set flag is one particle moving that way.
The outer ring starts empty and collision never changes it; propagation
does write it. A 100-by-100 block of full cells
(state 15) starts in the grid. Each timer tick does two things:

- a **collision**: every interior cell is replaced by its entry in a 16-entry
  lookup table;
- a **propagation**: every flag moves to the neighbouring cell. The new
  generation is built in a scratch grid and then copied back.

This project models the simulation class `HPP/src/application/Main.java` in
Dafny and proves what it computes:

- `Cell`: the cell state (a Java `byte` as `bv8`), the four masks, a
  reference particle count and the 4-bit reversal.
- `Tables`: the occupation table `bits` with `getBits`, and the collision
  rule that `setupCollision` writes into `lookup`.
- `Lattice`: the automaton on values (`seq<seq<Byte>>`, of any size n). It has
  the collision step, the propagation step and the composed tick.
  Propagation is modelled exactly as the nested loops compute it. The four
  contribution variables `upByte`, `downByte`, `leftByte` and `rightByte`
  are declared once, before the loops. On an edge, the program leaves the
  variable for the missing neighbour as it was, so it keeps the value set at
  an earlier cell, except on row 0, and for the left variable at (0, 0),
  where the variable still holds its initial 0. `CarryThrough` follows the variables in row-major order.
  `Contributions` is a closed form, proved equal to it, that says where each
  leftover value comes from. `PropagatedWalled` is a variant the program
  does not compute, in which a missing neighbour contributes nothing.
- `Engine`: the class `Simulation`. Its fields are `lookup` (an `array`),
  and `data` and `tempdata` (two `array2` buffers). Its methods are
  `SetupCollision`, the initialisation `Start`, `Collision`, `Propagation`
  (a double buffer with the four carried variables) and `Tick`. Each method
  is proved against the value-level functions of `Lattice` through
  `Snapshot`, the ghost view of a 2-D array as a grid.

`Ready()` says that the lookup table holds the collision rule and that every
cell is a 4-bit state. `Start` establishes it, and `Collision`, `Propagation`
and `Tick` require it and keep it. So the sign bit of a Java `byte` is never
set in the grid, and the unsigned `bv8` operations `&`, `|`, `<<` and `>>`
give the same results as Java's.

Where the code's behaviour differs from what one might expect of an HPP
automaton, the model follows the code:

- The collision table replaces every state by its mirror image, except 6 and
  9, which swap. 6 and 9 are their own mirror images too, but the table swaps
  them, so 0 and 15 are the only states left unchanged (`CollideFixedPoints`). States with one
  or three particles are not left alone: they are reversed
  (`CollideMovesOddStates`).
- Edge cells do not get zero contributions from missing neighbours, except
  for the up flag on row 0 (`PropagatedTopRowNoUp`) and the right flag at
  (0, 0). They get the leftovers described above (`PropagatedRightEdgeEcho`,
  `PropagatedLeftEdgeLeak`, `PropagatedLastRowLeak`).

The contract-free functions that define the model are `Tables.Collide`
(the rule of lines 229-244), `Lattice.CollideCell` (one cell of lines
168-172), `Lattice.Visit` (the guarded assignments of lines 196-203),
`Lattice.CarryThrough` (the four variables as the loops of lines 192-210
leave them before each cell), `Lattice.Next` (the value stored at line 206),
`Lattice.Contributions` (the closed form of the carried variables) and
`Engine.FilledCell` (one cell of the fill at lines 86-92). The rows below give
the properties proved about them.

## Model

| member | source | states |
|---|---|---|
| Cell.PopCount | HPP/src/application/Main.java:58 | the reference particle count is at most 4; it is 0 exactly for the empty cell and 4 exactly for the full cell |
| Cell.ReverseFlags | HPP/src/application/Main.java:229-244 | reversal maps each flag to its opposite direction (up↔down, left↔right), gives a 4-bit state and keeps the particle count |
| Cell.ReverseInvolution | HPP/src/application/Main.java:229-244 | reversing a 4-bit state twice gives it back |
| Tables.GetBits | HPP/src/application/Main.java:155-157 | the occupation of a cell, read from `bits`, is its number of set direction flags and lies in [0, 4] |
| Tables.BitsIsPopCount | HPP/src/application/Main.java:58 | every entry of the `bits` table is the particle count of its index |
| Tables.TableEntry | HPP/src/application/Main.java:229-244 | each of the sixteen literal `lookup` entries is the collision rule: 6 and 9 swap, every other state is reversed |
| Tables.CollideKeepsCount | HPP/src/application/Main.java:229-244 | the rule maps into [0, 15] and keeps the particle count |
| Tables.CollideInvolution | HPP/src/application/Main.java:229-244 | applying the rule twice gives the state back |
| Tables.CollideFixedPoints | HPP/src/application/Main.java:229-244 | a state is left unchanged exactly when it is 0 or 15 |
| Tables.CollideMovesOddStates | HPP/src/application/Main.java:229-244 | a state with one or three particles is always changed, into its reversal |
| Tables.CollisionTableKeepsBits | HPP/src/application/Main.java:58 | looking a state up in the literal table keeps its `bits` occupation |
| Tables.CollisionTableInvolution | HPP/src/application/Main.java:229-244 | looking a state up twice in the literal table gives it back, and every entry is a 4-bit state |
| Lattice.Collided | HPP/src/application/Main.java:165-176 | a collision step keeps the shape, keeps every cell a state, leaves the ring unchanged and keeps every cell's particle count |
| Lattice.CollidedInterior | HPP/src/application/Main.java:170-172 | an interior cell becomes the rule applied to its old value |
| Lattice.CollidedLocal | HPP/src/application/Main.java:165-176 | a cell's new value depends only on its own old value |
| Lattice.CollidedKeepsFull | HPP/src/application/Main.java:171 | a cell holding 15 still holds 15 after collision |
| Lattice.CollidedTwice | HPP/src/application/Main.java:165-176 | two collision steps give back the original grid |
| Lattice.VisitStep | HPP/src/application/Main.java:196-203 | one pass of the four guarded assignments takes the variables from their closed-form value before a cell to their closed-form value at it |
| Lattice.CellStep | HPP/src/application/Main.java:196-206 | from the closed-form variables before a cell, one loop body reaches the closed form before the next cell and stores that cell of the propagated grid |
| Lattice.CarryThroughIsCarryBefore | HPP/src/application/Main.java:192-210 | at every cell, the variables carried through the loops in row-major order equal the closed form |
| Lattice.VisitIsContributions | HPP/src/application/Main.java:192-210 | the variables used to build cell (i, j) are exactly its closed-form contributions |
| Lattice.ContributionsAreFlags | HPP/src/application/Main.java:196-205 | each variable holds nothing or the single flag it sets, so the stored value is a 4-bit state |
| Lattice.NextIsContributions | HPP/src/application/Main.java:205-206 | the value the loops store at (i, j) is the union of its closed-form contributions and is a state |
| Lattice.Propagated | HPP/src/application/Main.java:185-217 | the propagated grid keeps the shape, has only states, and every cell is the union of its closed-form contributions; each is computed from the grid before the step |
| Lattice.PropagatedInterior | HPP/src/application/Main.java:196-205 | an interior cell becomes the four mask-and-shift terms of its four neighbours |
| Lattice.PropagatedReadsNeighbours | HPP/src/application/Main.java:196-206 | an interior cell's new value depends on the old grid only through its four neighbours |
| Lattice.PropagatedTopRowReceives | HPP/src/application/Main.java:196-197 | a row-0 cell away from the corners gets as its down flag the up flag of the cell below it, so propagation writes the ring |
| Lattice.PropagatedRightEdgeEcho | HPP/src/application/Main.java:202-203 | a last-column cell's new left flag is exactly its own old right flag |
| Lattice.PropagatedLeftEdgeLeak | HPP/src/application/Main.java:200-201 | a column-0 cell below row 0 gets the right flag that row i-1, column n-2 set |
| Lattice.PropagatedLastRowLeak | HPP/src/application/Main.java:196-197 | every last-row cell gets a down flag exactly when the bottom-right cell has an up flag |
| Lattice.PropagatedTopRowNoUp | HPP/src/application/Main.java:198-199 | no row-0 cell ever gets an up flag |
| Lattice.PropagatedWalled | HPP/src/application/Main.java:196-205 | the zero-contribution variant has only states, and each of its cells carries no more particles than the program's |
| Lattice.WalledAgreesInside | HPP/src/application/Main.java:196-205 | the variant equals the program on interior cells, and its flags are always a subset of the program's |
| Lattice.Step | HPP/src/application/Main.java:110-113 | a tick keeps the grid a grid of states, and every cell is the propagation formula applied to the collided grid |
| Engine.Initial | HPP/src/application/Main.java:84-104 | the initial grid has only states: the ring is 0, the obstacle block is 15, and every other cell is its draw, at most 12 |
| Engine.Simulation.constructor | HPP/src/application/Main.java:56-62 | the field initialisers leave `lookup`, `data` and `tempdata` fresh and zero |
| Engine.Simulation.SetupCollision | HPP/src/application/Main.java:223-245 | after the sixteen assignments, `lookup` is exactly the literal collision table |
| Engine.Simulation.Start | HPP/src/application/Main.java:84-104 | random fill with an empty ring, table setup and the obstacle block leave `data` equal to `Initial(draws)`, with the object ready to tick |
| Engine.Simulation.FillRow | HPP/src/application/Main.java:85-94 | one row of the random fill stores each draw, or 0 on the ring; the other rows are unchanged |
| Engine.Simulation.ObstacleRow | HPP/src/application/Main.java:100-103 | one row of the obstacle loop sets columns 50..149 to 15 and changes nothing else |
| Engine.Simulation.Collision | HPP/src/application/Main.java:165-176 | the in-place collision leaves `data` equal to `Collided` of its old contents and keeps the object ready |
| Engine.Simulation.CollideRow | HPP/src/application/Main.java:167-174 | one row: ring cells keep their value, interior cells go through `lookup`, the other rows are unchanged |
| Engine.Simulation.Propagation | HPP/src/application/Main.java:185-217 | after both loops, `data` is `Propagated` of its old contents, `tempdata` holds the same grid, and the object stays ready |
| Engine.Simulation.PropagateRow | HPP/src/application/Main.java:194-209 | one row of the first loop stores the propagated row into `tempdata` and leaves the four variables in their closed-form state for the next row |
| Engine.Simulation.PropagateCell | HPP/src/application/Main.java:196-206 | one cell: the four variables are refreshed from the neighbours that exist, and their union is stored at (i, j) of `tempdata` alone |
| Engine.Simulation.CopyRow | HPP/src/application/Main.java:212-214 | one row of the copy loop makes `data` equal to `tempdata` on that row and changes nothing else |
| Engine.Simulation.Tick | HPP/src/application/Main.java:110-113 | one tick leaves `data` equal to `Step` of its old contents (one collision, then one propagation) and `tempdata` holding the same grid |

## Left out

- Rendering is not modelled: the `GridElement` objects, the `GridPane`, the
  `Scene`, and the `setOccupation(getBits(…))` calls at lines 93, 102
  and 208. They display a cell's occupation and do not change the grid.
  `getBits` itself is modelled.
- The JavaFX `Timeline`, its 100 ms key frame, the key-press play/pause
  toggle and `main`/`launch` are not modelled. They decide when `Tick` runs,
  not what it does.
- `Random.nextInt(13)` becomes the parameter `draws` of `Start`: one value
  in [0, 13) per cell, in visiting order. The model does not state that the
  draws are uniform.
- Start: the fill loop draws a value for ring cells too, then overwrites it
  with 0. Only the stored values are modelled, not how many numbers are
  drawn.
- Java `byte` sign semantics and the `(byte)` casts are not modelled. Every
  value stays in [0, 15], as proved, so the casts change nothing.
- Tables.GetBits: requires a 4-bit state. The Java code would throw an
  out-of-bounds exception on any other byte. Every caller passes a grid value,
  which is always a state.
- The handler's `for (int i = 0; i < 1; i++)` loop runs its body once. It is
  modelled as that single body in `Tick`.
- The inner loops of `collision`, of the fill and obstacle loops of `start`,
  and of both `propagation` loops are written as per-row methods. The body of
  the first propagation loop is a per-cell method. They run the same
  statements in the same order; only the proof is split up.
- The `try`/`catch` in `start` is not modelled. Nothing in the modelled code
  can throw once the arrays have their sizes.
